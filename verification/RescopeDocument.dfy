/** `rewrite` of scripts/rescope-vendor.ts: lines, fences, and the round trip of a whole text. */
module RescopeDocument {
  import opened Prelude
  import opened Text
  import opened RescopeText
  import opened RescopeCells
  import opened RescopeLaws
  import opened RescopePasses
  import opened RescopeLines

  // ---- Rewriting keeps fences and line ends ----

  predicate AllSpace(s: string) {
    forall i | 0 <= i < |s| :: IsSpace(s[i])
  }

  predicate Backtick(t: Line) {
    t.Cell? && t.content == "" && t.delimiter == '`'
  }

  /** A fence line, told from its cells. */
  predicate Fence(t: Line) {
    t.Cell? && AllSpace(t.content)
    && if IsTerminator(t.delimiter) then Fence(t.rest)
       else t.delimiter == '`' && Backtick(t.rest) && Backtick(t.rest.rest)
  }

  lemma BacktickStarts(t: Line)
    requires WellFormed(t)
    ensures Backtick(t) <==> Unparse(t) != "" && Unparse(t)[0] == '`'
    ensures Backtick(t) ==> Unparse(t)[1..] == Unparse(t.rest)
  {
    if t.Cell? && t.content != "" { assert Unparse(t)[0] == t.content[0]; }
  }

  lemma TwoBackticks(t: Line)
    requires WellFormed(t)
    ensures "``" <= Unparse(t) <==> Backtick(t) && Backtick(t.rest)
  {
    var s := Unparse(t);
    BacktickStarts(t);
    assert "``" <= s <==> |s| >= 2 && s[0] == '`' && s[1] == '`';
    if Backtick(t) {
      BacktickStarts(t.rest);
      assert |s| >= 2 ==> s[1] == s[1..][0];
    }
  }

  lemma ThreeBackticks(q: char, u: string)
    ensures "```" <= [q] + u <==> q == '`' && "``" <= u
  {
    var s := [q] + u;
    assert "``" <= u <==> |u| >= 2 && u[0] == '`' && u[1] == '`';
    assert "```" <= s <==> |s| >= 3 && s[0] == '`' && s[1] == '`' && s[2] == '`';
  }

  lemma NoFenceInside(s: string, k: nat)
    requires SkipWhile(s, IsSpace) == k && k < |s| && !IsQuote(s[k])
    ensures !IsFence(s)
  {
    assert s[k..][0] == s[k];
  }

  lemma TextFirst(content: string, s: string)
    requires content <= s && !AllSpace(content) && Plain(content)
    ensures !IsFence(s)
  {
    var k := SkipWhile(content, IsSpace);
    assert s[..|content|] == content;
    SkipWhileIs(s, IsSpace, k);
    NoFenceInside(s, k);
  }

  lemma TerminatorFirst(content: string, delimiter: char, u: string)
    requires AllSpace(content) && IsTerminator(delimiter)
    ensures IsFence(content + [delimiter] + u) == IsFence(u)
  {
    var s, head, n := content + [delimiter] + u, content + [delimiter], SkipWhile(u, IsSpace);
    assert forall k | 0 <= k < |head| :: IsSpace(head[k]);
    SkipWhileIs(head + u, IsSpace, |head| + n);
    SliceRight(head, u, n);
  }

  lemma QuoteFirst(content: string, delimiter: char, u: string)
    requires AllSpace(content) && IsQuote(delimiter)
    ensures IsFence(content + [delimiter] + u) <==> delimiter == '`' && "``" <= u
  {
    var tail := [delimiter] + u;
    Join(content, [delimiter], u);
    SkipWhileIs(content + tail, IsSpace, |content|);
    SliceRight(content, tail, 0);
    ThreeBackticks(delimiter, u);
  }

  lemma {:induction false} FenceCells(t: Line)
    requires WellFormed(t)
    ensures IsFence(Unparse(t)) <==> Fence(t)
  {
    if !AllSpace(t.content) {
      TextFirst(t.content, Unparse(t));
    } else if t.End? {
      SkipWhileIs(t.content, IsSpace, |t.content|);
    } else if IsTerminator(t.delimiter) {
      FenceCells(t.rest);
      TerminatorFirst(t.content, t.delimiter, Unparse(t.rest));
    } else {
      QuoteFirst(t.content, t.delimiter, Unparse(t.rest));
      TwoBackticks(t.rest);
    }
  }

  lemma FormIsNoSpace(op: Op, content: string)
    requires IsOp(op) && Matches(op, content)
    ensures !AllSpace(content)
  {
    match op
    case Tokens(r) => assert content[0] == r.from[0];
    case Yaml(r) =>
      var j := KeyStart(content);
      assert content[j] == content[j..][0] == 'n';
  }

  lemma {:induction false} FencePersists(op: Op, t: Line, u: Line)
    requires IsOp(op) && Differs(op, t, u)
    ensures Fence(t) == Fence(u)
  {
    if t.content != u.content {
      FormHasNoFence(op, t.content);
      FormHasNoFence(op, u.content);
    }
    if t.Cell? {
      FencePersists(op, t.rest, u.rest);
      BacktickPersists(op, t.rest, u.rest);
      if t.rest.Cell? { BacktickPersists(op, t.rest.rest, u.rest.rest); }
    }
  }

  lemma FormHasNoFence(op: Op, content: string)
    requires IsOp(op) && Form(op, content)
    ensures !AllSpace(content)
  {
    if Matches(op, content) {
      FormIsNoSpace(op, content);
    } else {
      FormIsNoSpace(Inverse(op), content);
    }
  }

  lemma BacktickPersists(op: Op, t: Line, u: Line)
    requires IsOp(op) && Differs(op, t, u)
    ensures Backtick(t) == Backtick(u)
  {
    if t.content != u.content {
      FormHasNoFence(op, t.content);
      FormHasNoFence(op, u.content);
    }
  }

  /** No rewrite creates or destroys a fence line. */
  lemma {:induction false} LineKeepsFence(line: string, rules: seq<Rule>)
    requires forall r | r in rules :: IsRule(r)
    ensures IsFence(RewriteLine(line, rules)) == IsFence(line)
    decreases |rules|
  {
    if rules != [] {
      var r, t := rules[0], Parse(line);
      var next := ReplaceYamlNames(ReplaceTokens(line, r), r);
      RewriteOne(line, r);
      UnparseParse(line);
      UnparseParse(next);
      RunDiffers(Tokens(r), t, None, true);
      FencePersists(Tokens(r), t, Apply(Tokens(r), t));
      RunDiffers(Yaml(r), Apply(Tokens(r), t), None, true);
      FencePersists(Yaml(r), Apply(Tokens(r), t), Parse(next));
      FenceCells(t);
      FenceCells(Parse(next));
      LineKeepsFence(next, rules[1..]);
    }
  }

  predicate NewlineFree(t: Line) {
    t.Cell? ==> t.delimiter != '\n' && NewlineFree(t.rest)
  }

  lemma {:induction false} NewlineFreeCells(t: Line)
    requires WellFormed(t)
    ensures NewlineFree(t) <==> '\n' !in Unparse(t)
  {
    if t.Cell? { NewlineFreeCells(t.rest); }
  }

  lemma {:induction false} RunKeepsNewlines(op: Op, t: Line, open: Option<char>, first: bool)
    ensures NewlineFree(Run(op, t, open, first)) == NewlineFree(t)
  {
    if t.Cell? { RunKeepsNewlines(op, t.rest, NextOpen(op, t, open, first), IsTerminator(t.delimiter)); }
  }

  lemma {:induction false} LineStaysOneLine(line: string, rules: seq<Rule>)
    requires (forall r | r in rules :: IsRule(r)) && '\n' !in line
    ensures '\n' !in RewriteLine(line, rules)
    decreases |rules|
  {
    if rules != [] {
      var r, t := rules[0], Parse(line);
      var next := ReplaceYamlNames(ReplaceTokens(line, r), r);
      RewriteOne(line, r);
      UnparseParse(line);
      UnparseParse(next);
      NewlineFreeCells(t);
      RunKeepsNewlines(Tokens(r), t, None, true);
      RunKeepsNewlines(Yaml(r), Apply(Tokens(r), t), None, true);
      NewlineFreeCells(Parse(next));
      LineStaysOneLine(next, rules[1..]);
    }
  }

  // ---- A whole text ----

  /** Where the rename applies: everywhere outside Markdown, and in Markdown inside fences and in docs prose. */
  datatype Place = Place(markdown: bool, prose: bool)

  predicate Eligible(place: Place, inside: bool, line: string) {
    !place.markdown || (!IsFence(line) && (inside || place.prose))
  }

  predicate InsideAfter(place: Place, inside: bool, line: string) {
    if place.markdown && IsFence(line) then !inside else inside
  }

  function RewriteLines(lines: seq<string>, place: Place, inside: bool, rules: seq<Rule>): (r: seq<string>)
    ensures |r| == |lines|
  {
    if lines == [] then []
    else
      [if Eligible(place, inside, lines[0]) then RewriteLine(lines[0], rules) else lines[0]]
      + RewriteLines(lines[1..], place, InsideAfter(place, inside, lines[0]), rules)
  }

  function RewriteText(text: string, place: Place, rules: seq<Rule>): string {
    JoinLines(RewriteLines(SplitLines(text), place, false, rules))
  }

  /** A property of all the lines the rename may touch. */
  ghost predicate OnEligible(lines: seq<string>, place: Place, inside: bool, p: string -> bool) {
    lines == [] || (
      && (Eligible(place, inside, lines[0]) ==> p(lines[0]))
      && OnEligible(lines[1..], place, InsideAfter(place, inside, lines[0]), p))
  }

  lemma {:induction false} LinesStayLines(lines: seq<string>, place: Place, inside: bool, rules: seq<Rule>)
    requires (forall r | r in rules :: IsRule(r)) && forall i | 0 <= i < |lines| :: '\n' !in lines[i]
    ensures forall i | 0 <= i < |lines| :: '\n' !in RewriteLines(lines, place, inside, rules)[i]
  {
    if lines != [] {
      LineStaysOneLine(lines[0], rules);
      LinesStayLines(lines[1..], place, InsideAfter(place, inside, lines[0]), rules);
    }
  }

  /** Two passes over the lines see the same fences, so they meet line by line. */
  lemma {:induction false} TwoPasses(lines: seq<string>, place: Place, inside: bool, one: seq<Rule>, two: seq<Rule>)
    requires (forall r | r in one :: IsRule(r)) && lines != []
    ensures var first := RewriteLines(lines, place, inside, one);
            var head := if Eligible(place, inside, lines[0]) then RewriteLine(RewriteLine(lines[0], one), two) else lines[0];
            var next := InsideAfter(place, inside, lines[0]);
            RewriteLines(first, place, inside, two)
            == [head] + RewriteLines(RewriteLines(lines[1..], place, next, one), place, next, two)
  {
    LineKeepsFence(lines[0], one);
    var first := RewriteLines(lines, place, inside, one);
    assert first[1..] == RewriteLines(lines[1..], place, InsideAfter(place, inside, lines[0]), one);
  }

  lemma {:induction false} LinesComeBack(lines: seq<string>, place: Place, inside: bool, rules: seq<Rule>)
    requires Compatible(rules)
    ensures RewriteLines(RewriteLines(lines, place, inside, rules), place, inside, FlipAll(rules)) == lines
            <==> OnEligible(lines, place, inside, (line: string) => NoStrayName(line, rules))
  {
    if lines != [] {
      FlippedAreRules(rules);
      var next := InsideAfter(place, inside, lines[0]);
      TwoPasses(lines, place, inside, rules, FlipAll(rules));
      LineComesBack(lines[0], rules);
      LinesComeBack(lines[1..], place, next, rules);
      HeadAndTail(lines, RewriteLines(RewriteLines(lines, place, inside, rules), place, inside, FlipAll(rules)));
    }
  }

  lemma HeadAndTail(a: seq<string>, b: seq<string>)
    requires |a| == |b| > 0
    ensures a == b <==> a[0] == b[0] && a[1..] == b[1..]
  {
    assert a == [a[0]] + a[1..] && b == [b[0]] + b[1..];
  }

  /**
   * Reversing a rewritten text restores it exactly when no eligible line holds
   * a stray scoped name; in particular for every text without scoped names.
   */
  lemma TextComesBack(text: string, place: Place, rules: seq<Rule>)
    requires Compatible(rules)
    ensures RewriteText(RewriteText(text, place, rules), place, FlipAll(rules)) == text
            <==> OnEligible(SplitLines(text), place, false, (line: string) => NoStrayName(line, rules))
  {
    var lines := SplitLines(text);
    var forward := RewriteLines(lines, place, false, rules);
    var back := RewriteLines(forward, place, false, FlipAll(rules));
    FlippedAreRules(rules);
    LinesStayLines(lines, place, false, rules);
    SplitJoin(forward, '\n');
    LinesStayLines(forward, place, false, FlipAll(rules));
    SplitJoin(back, '\n');
    JoinSplit(text, '\n');
    SplitJoin(lines, '\n');
    LinesComeBack(lines, place, false, rules);
  }

  lemma {:induction false} OnEligibleImplies(lines: seq<string>, place: Place, inside: bool, p: string -> bool, q: string -> bool)
    requires OnEligible(lines, place, inside, p) && forall line | line in lines && p(line) :: q(line)
    ensures OnEligible(lines, place, inside, q)
  {
    if lines != [] {
      OnEligibleImplies(lines[1..], place, InsideAfter(place, inside, lines[0]), p, q);
    }
  }

  /** Reversing any one name on the line finds nothing. */
  predicate WithoutScopedNames(line: string, rules: seq<Rule>) {
    forall r | r in rules :: ReplaceTokens(line, Flip(r)) == line && ReplaceYamlNames(line, Flip(r)) == line
  }

  /** A text without already scoped names always comes back. */
  lemma CleanTextComesBack(text: string, place: Place, rules: seq<Rule>)
    requires Compatible(rules)
    requires OnEligible(SplitLines(text), place, false, (line: string) => WithoutScopedNames(line, rules))
    ensures RewriteText(RewriteText(text, place, rules), place, FlipAll(rules)) == text
  {
    forall line | WithoutScopedNames(line, rules) ensures NoStrayName(line, rules) {
      CleanLineComesBack(line, rules);
      LineComesBack(line, rules);
    }
    OnEligibleImplies(SplitLines(text), place, false, (line: string) => WithoutScopedNames(line, rules),
                      (line: string) => NoStrayName(line, rules));
    TextComesBack(text, place, rules);
  }

  lemma {:induction false} LinesRepeat(lines: seq<string>, place: Place, inside: bool, rules: seq<Rule>)
    requires Compatible(rules)
    ensures RewriteLines(RewriteLines(lines, place, inside, rules), place, inside, rules) == RewriteLines(lines, place, inside, rules)
            <==> OnEligible(lines, place, inside, (line: string) => !TokensShareQuote(line, rules))
  {
    if lines != [] {
      FlippedAreRules(rules);
      var next := InsideAfter(place, inside, lines[0]);
      TwoPasses(lines, place, inside, rules, rules);
      LineIsIdempotent(lines[0], rules);
      LinesRepeat(lines[1..], place, next, rules);
      var once := RewriteLines(lines, place, inside, rules);
      HeadAndTail(once, RewriteLines(once, place, inside, rules));
      assert once[1..] == RewriteLines(lines[1..], place, next, rules);
    }
  }

  /**
   * Applying the rename a second time changes nothing exactly when no eligible
   * line has two tokens of one name sharing a quote.
   */
  lemma TextIsIdempotent(text: string, place: Place, rules: seq<Rule>)
    requires Compatible(rules)
    ensures RewriteText(RewriteText(text, place, rules), place, rules) == RewriteText(text, place, rules)
            <==> OnEligible(SplitLines(text), place, false, (line: string) => !TokensShareQuote(line, rules))
  {
    var lines := SplitLines(text);
    var once := RewriteLines(lines, place, false, rules);
    var twice := RewriteLines(once, place, false, rules);
    FlippedAreRules(rules);
    LinesStayLines(lines, place, false, rules);
    SplitJoin(once, '\n');
    LinesStayLines(once, place, false, rules);
    SplitJoin(twice, '\n');
    LinesRepeat(lines, place, false, rules);
  }

  /** The cells of `'cordis'cordis'`. */
  function SharedQuoteCells(): Line {
    Cell("", '\'', Cell("cordis", '\'', Cell("cordis", '\'', End(""))))
  }

  lemma SharedQuoteSpells()
    ensures WellFormed(SharedQuoteCells()) && Unparse(SharedQuoteCells()) == "'cordis'cordis'"
  {
    var t := SharedQuoteCells();
    assert Unparse(End("")) == "";
    assert Unparse(t.rest.rest) == "cordis" + "'" + "";
    assert Unparse(t.rest) == "cordis" + "'" + Unparse(t.rest.rest);
  }

  lemma SharedQuoteIsShared(op: Op)
    requires op == Tokens(CoreRule("cordis"))
    ensures SharesQuote(op, SharedQuoteCells(), None)
  {
    var t := SharedQuoteCells();
    assert Hit(op, t.rest, Some('\''), false) && Hit(op, t.rest.rest, Some('\''), false);
    assert SharesQuote(op, t.rest, Some('\''));
  }

  /** `'cordis'cordis'`: the middle quote is used up by the first match and opens the second on the next pass. */
  lemma SharedQuoteIsRewrittenTwice(line: string, rules: seq<Rule>)
    requires line == "'cordis'cordis'" && Compatible(rules) && CoreRule("cordis") in rules
    ensures RewriteLine(RewriteLine(line, rules), rules) != RewriteLine(line, rules)
  {
    SharedQuoteSpells();
    ParseUnparse(SharedQuoteCells());
    SharedQuoteIsShared(Tokens(CoreRule("cordis")));
    LineIsIdempotent(line, rules);
  }

  // ---- Which lines are rewritten ----

  /** White space, then three backticks. */
  ghost predicate OpensOrCloses(line: string) {
    exists k: nat {:trigger line[k..]} :: k + 3 <= |line| && line[k..][..3] == "```" && forall i | 0 <= i < k :: IsSpace(line[i])
  }

  lemma FenceIsTold(line: string)
    ensures IsFence(line) <==> OpensOrCloses(line)
  {
    var n := SkipWhile(line, IsSpace);
    if IsFence(line) { assert line[n..][..3] == "```"; }
    if k: nat :| k + 3 <= |line| && line[k..][..3] == "```" && forall i | 0 <= i < k :: IsSpace(line[i]) {
      assert line[k] == line[k..][..3][0];
      SkipWhileIs(line, IsSpace, k);
    }
  }

  ghost function Fences(lines: seq<string>): nat {
    if lines == [] then 0 else Fences(lines[..|lines| - 1]) + (if OpensOrCloses(lines[|lines| - 1]) then 1 else 0)
  }

  /** Outside Markdown every line; in Markdown no fence line, and the rest in prose or after an odd number of fence lines. */
  ghost predicate Touched(lines: seq<string>, place: Place, i: nat)
    requires i < |lines|
  {
    !place.markdown || (!OpensOrCloses(lines[i]) && (place.prose || Fences(lines[..i]) % 2 == 1))
  }

  ghost function LineOf(lines: seq<string>, place: Place, rules: seq<Rule>, i: nat): string
    requires i < |lines|
  {
    if Touched(lines, place, i) then RewriteLine(lines[i], rules) else lines[i]
  }

  lemma {:induction false} InsideOneMore(lines: seq<string>, place: Place, inside: bool, line: string)
    ensures InsideAll(lines + [line], place, inside) == InsideAfter(place, InsideAll(lines, place, inside), line)
  {
    if lines == [] {
      assert [] + [line] == [line] && [line][1..] == [];
    } else {
      assert (lines + [line])[1..] == lines[1..] + [line];
      InsideOneMore(lines[1..], place, InsideAfter(place, inside, lines[0]), line);
    }
  }

  lemma Parity(n: nat)
    ensures (n + 1) % 2 == 1 <==> n % 2 != 1
  {
  }

  lemma {:induction false} InsideIsOdd(lines: seq<string>, place: Place)
    requires place.markdown
    ensures InsideAll(lines, place, false) <==> Fences(lines) % 2 == 1
  {
    if lines != [] {
      var init, line := lines[..|lines| - 1], lines[|lines| - 1];
      assert lines == init + [line];
      InsideIsOdd(init, place);
      InsideOneMore(init, place, false, line);
      FenceIsTold(line);
      Parity(Fences(init));
    }
  }

  /** Each line of the result is the rewritten or the original one, told from the fence lines before it. */
  lemma {:induction false} LinesAreTold(lines: seq<string>, place: Place, rules: seq<Rule>)
    ensures |RewriteLines(lines, place, false, rules)| == |lines|
    ensures forall i | 0 <= i < |lines| :: RewriteLines(lines, place, false, rules)[i] == LineOf(lines, place, rules, i)
  {
    if lines != [] {
      var init, line := lines[..|lines| - 1], lines[|lines| - 1];
      assert lines == init + [line];
      LinesAreTold(init, place, rules);
      OneMoreLine(init, place, false, rules, line, InsideAll(init, place, false));
      if place.markdown { InsideIsOdd(init, place); }
      FenceIsTold(line);
      forall i | 0 <= i < |init| ensures LineOf(lines, place, rules, i) == LineOf(init, place, rules, i) {
        assert lines[..i] == init[..i];
      }
    }
  }

  /** The changed lines are those that differ. */
  lemma {:induction false} ChangesAreTold(before: seq<string>, after: seq<string>)
    requires |before| == |after|
    ensures CountChanged(before, after) == |set i | 0 <= i < |before| && before[i] != after[i]|
  {
    if before != [] {
      var n := |before| - 1;
      ChangesAreTold(before[..n], after[..n]);
      var less := set i | 0 <= i < |before[..n]| && before[..n][i] != after[..n][i];
      var all := set i | 0 <= i < |before| && before[i] != after[i];
      assert all == if before[n] != after[n] then less + {n} else less;
    }
  }

  // ---- The loop ----

  function CountChanged(before: seq<string>, after: seq<string>): nat
    requires |before| == |after|
  {
    if before == [] then 0
    else CountChanged(before[..|before| - 1], after[..|after| - 1]) + (if before[|before| - 1] != after[|after| - 1] then 1 else 0)
  }

  lemma {:induction false} OneMoreLine(lines: seq<string>, place: Place, inside: bool, rules: seq<Rule>, line: string, last: bool)
    requires last == InsideAll(lines, place, inside)
    ensures RewriteLines(lines + [line], place, inside, rules)
            == RewriteLines(lines, place, inside, rules) + [if Eligible(place, last, line) then RewriteLine(line, rules) else line]
    ensures InsideAll(lines + [line], place, inside) == InsideAfter(place, last, line)
  {
    if lines != [] {
      assert (lines + [line])[1..] == lines[1..] + [line];
      OneMoreLine(lines[1..], place, InsideAfter(place, inside, lines[0]), rules, line, last);
    } else {
      assert (lines + [line])[1..] == [];
    }
  }

  /** Whether the lines end inside a fence. */
  function InsideAll(lines: seq<string>, place: Place, inside: bool): bool {
    if lines == [] then inside else InsideAll(lines[1..], place, InsideAfter(place, inside, lines[0]))
  }

  lemma CountOneMore(before: seq<string>, after: seq<string>, x: string, y: string)
    requires |before| == |after|
    ensures CountChanged(before + [x], after + [y]) == CountChanged(before, after) + (if x != y then 1 else 0)
  {
    assert (before + [x])[..|before|] == before && (after + [y])[..|after|] == after;
  }

  /** The loop's variables after some lines. */
  ghost predicate Progress(done: seq<string>, place: Place, rules: seq<Rule>, inside: bool, out: seq<string>, changed: nat) {
    && inside == InsideAll(done, place, false)
    && out == RewriteLines(done, place, false, rules)
    && |done| == |out| && changed == CountChanged(done, out)
  }

  lemma Proceed(
    lines: seq<string>, i: nat, place: Place, rules: seq<Rule>, inside: bool, out: seq<string>, changed: nat, next: string)
    requires i < |lines| && Progress(lines[..i], place, rules, inside, out, changed)
    requires next == if Eligible(place, inside, lines[i]) then RewriteLine(lines[i], rules) else lines[i]
    ensures Progress(lines[..i + 1], place, rules, InsideAfter(place, inside, lines[i]), out + [next],
                     if next != lines[i] then changed + 1 else changed)
  {
    TakeOneMore(lines, i);
    OneMoreLine(lines[..i], place, false, rules, lines[i], inside);
    CountOneMore(lines[..i], out, lines[i], next);
  }

  lemma RewriteIsTold(lines: seq<string>, place: Place, rules: seq<Rule>, out: seq<string>)
    requires out == RewriteLines(lines, place, false, rules)
    ensures out == seq(|lines|, i requires 0 <= i < |lines| => LineOf(lines, place, rules, i))
    ensures CountChanged(lines, out) == |set i | 0 <= i < |lines| && LineOf(lines, place, rules, i) != lines[i]|
  {
    LinesAreTold(lines, place, rules);
    ChangesAreTold(lines, out);
    assert (set i | 0 <= i < |lines| && lines[i] != out[i]) == set i | 0 <= i < |lines| && LineOf(lines, place, rules, i) != lines[i];
  }

  method Rewrite(text: string, place: Place, rules: seq<Rule>) returns (rewritten: string, changed: nat)
    ensures rewritten == RewriteText(text, place, rules)
    ensures changed == CountChanged(SplitLines(text), RewriteLines(SplitLines(text), place, false, rules))
    ensures var lines := SplitLines(text);
            && rewritten == JoinLines(seq(|lines|, i requires 0 <= i < |lines| => LineOf(lines, place, rules, i)))
            && changed == |set i | 0 <= i < |lines| && LineOf(lines, place, rules, i) != lines[i]|
  {
    var insideFence := false;
    var lines := SplitLines(text);
    var out: seq<string> := [];
    changed := 0;
    for i := 0 to |lines|
      invariant Progress(lines[..i], place, rules, insideFence, out, changed)
    {
      var line := lines[i];
      var next := line;
      ghost var before, outBefore, changedBefore := insideFence, out, changed;
      if place.markdown && IsFence(line) {
        insideFence := !insideFence;
      } else if !place.markdown || insideFence || place.prose {
        next := RewriteLine(line, rules);
      }
      if next != line {
        changed := changed + 1;
      }
      out := out + [next];
      Proceed(lines, i, place, rules, before, outBefore, changedBefore, next);
    }
    assert lines[..|lines|] == lines;
    rewritten := JoinLines(out);
    RewriteIsTold(lines, place, rules, out);
  }
}
