/** What the two regular expressions of a name match, character by character, and what replacing their matches does. */
module RescopePatterns {
  import opened Prelude
  import opened Text
  import opened RescopeText

  // ---- Character classes ----

  /** WhiteSpace and LineTerminator of ECMA-262, sections 12.2 and 12.3, by code point. */
  lemma SpaceIsTold(c: char)
    ensures IsSpace(c) <==>
            c as int in {0x9, 0xB, 0xC, 0x20, 0xA0, 0xFEFF, 0x1680, 0x2000, 0x2001, 0x2002, 0x2003, 0x2004, 0x2005, 0x2006,
              0x2007, 0x2008, 0x2009, 0x200A, 0x202F, 0x205F, 0x3000} + {0xA, 0xD, 0x2028, 0x2029}
  {
    assert '\t' as int == 0x9 && '\r' as int == 0xD && ' ' as int == 0x20;
    assert '\U{A0}' as int == 0xA0 && '\U{1680}' as int == 0x1680 && '\U{2000}' as int == 0x2000 && '\U{200A}' as int == 0x200A;
    assert '\U{2028}' as int == 0x2028 && '\U{2029}' as int == 0x2029 && '\U{202F}' as int == 0x202F;
    assert '\U{205F}' as int == 0x205F && '\U{3000}' as int == 0x3000 && '\U{FEFF}' as int == 0xFEFF;
  }

  /** No quote and no white space. */
  ghost predicate OfSubpath(c: char) {
    c != '\'' && c != '"' && c != '`' && !IsSpace(c)
  }

  // ---- Tokens ----

  /** A match of length n at p: a quote, the name, nothing or a slash with a subpath, and the same quote. */
  ghost predicate TokenAt(s: string, p: nat, n: nat, name: string) {
    var after, close := p + 1 + |name|, p + n - 1;
    && after <= close < |s|
    && (s[p] == '\'' || s[p] == '"' || s[p] == '`') && s[close] == s[p]
    && s[p + 1..after] == name
    && (after == close || (s[after] == '/' && forall k | after <= k < close :: OfSubpath(s[k])))
  }

  ghost predicate TokenStarts(s: string, p: nat, name: string) {
    exists n: nat :: TokenAt(s, p, n, name)
  }

  lemma TokenIsTold(s: string, n: nat, name: string)
    requires n > 0
    ensures TokenLength(s, name) == n <==> TokenAt(s, 0, n, name)
  {
    if s != "" {
      var after := 1 + |name|;
      assert name <= s[1..] <==> after <= |s| && s[1..after] == name;
      if IsQuote(s[0]) && name <= s[1..] {
        SubpathIsTold(s, after, n);
      }
    }
  }

  /** The subpath and the closing quote behind the name. */
  lemma SubpathIsTold(s: string, after: nat, n: nat)
    requires 1 <= after <= |s| && IsQuote(s[0]) && n > 0
    ensures var rest := s[after..];
            var sub := if rest != "" && rest[0] == '/' then 1 + SkipWhile(rest[1..], InSubpath) else 0;
            sub < |rest| && rest[sub] == s[0] && n == after + sub + 1
            <==>
            && after <= n - 1 < |s| && s[n - 1] == s[0]
            && (after == n - 1 || (s[after] == '/' && forall k | after <= k < n - 1 :: OfSubpath(s[k])))
  {
    var rest := s[after..];
    if rest != "" && rest[0] == '/' {
      var tail := rest[1..];
      var m := SkipWhile(tail, InSubpath);
      assert forall k | 0 <= k < |tail| :: tail[k] == s[after + 1 + k] && (InSubpath(tail[k]) <==> OfSubpath(s[after + 1 + k]));
      assert !OfSubpath(s[0]);
      assert OfSubpath('/');
    }
  }

  lemma TokenShifts(s: string, p: nat, n: nat, name: string)
    requires p <= |s| && n > 0
    ensures TokenAt(s, p, n, name) <==> TokenAt(s[p..], 0, n, name)
  {
    var rest, after := s[p..], 1 + |name|;
    assert forall k | 0 <= k < |rest| :: rest[k] == s[p + k];
    if after <= |rest| { assert rest[1..after] == s[p + 1..p + after]; }
    if TokenAt(rest, 0, n, name) {
      assert forall k | p + after <= k < p + n - 1 :: s[k] == rest[k - p];
    }
  }

  lemma NoTokenHere(s: string, name: string)
    requires !TokenStarts(s, 0, name)
    ensures TokenLength(s, name) == 0
  {
    if TokenLength(s, name) > 0 { TokenIsTold(s, TokenLength(s, name), name); }
  }

  /** Nothing before position p starts a match. */
  ghost predicate NoneBefore(s: string, p: nat, name: string) {
    forall k: nat {:trigger TokenStarts(s, k, name)} | k < p :: !TokenStarts(s, k, name)
  }

  lemma StartShifts(s: string, k: nat, name: string)
    requires s != "" && TokenStarts(s[1..], k, name)
    ensures TokenStarts(s, k + 1, name)
  {
    var n: nat :| TokenAt(s[1..], k, n, name);
    TokenShifts(s[1..], k, n, name);
    TokenShifts(s, k + 1, n, name);
    assert s[1..][k..] == s[k + 1..];
  }

  lemma NoneBeforeTail(s: string, p: nat, name: string)
    requires NoneBefore(s, p, name) && s != "" && p > 0
    ensures NoneBefore(s[1..], p - 1, name)
  {
    forall k: nat {:trigger TokenStarts(s[1..], k, name)} | k < p - 1 && TokenStarts(s[1..], k, name)
      ensures TokenStarts(s, k + 1, name)
    {
      StartShifts(s, k, name);
    }
  }

  lemma CopyOne(s: string, p: nat, u: string)
    requires 0 < p <= |s|
    ensures [s[0]] + (s[1..][..p - 1] + u) == s[..p] + u && s[1..][p - 1..] == s[p..]
  {
    assert s[..p] == [s[0]] + s[1..][..p - 1];
    Join([s[0]], s[1..][..p - 1], u);
  }

  lemma NotReplaced(s: string, r: Rule)
    requires s != "" && !TokenStarts(s, 0, r.from)
    ensures ReplaceTokens(s, r) == [s[0]] + ReplaceTokens(s[1..], r)
  {
    NoTokenHere(s, r.from);
  }

  /** Up to the first match the text is copied. */
  lemma {:induction false} UnmatchedIsCopied(s: string, p: nat, r: Rule)
    requires p <= |s| && NoneBefore(s, p, r.from)
    ensures ReplaceTokens(s, r) == s[..p] + ReplaceTokens(s[p..], r)
  {
    if p == 0 {
      assert s[0..] == s;
    } else {
      NotReplaced(s, r);
      NoneBeforeTail(s, p, r.from);
      UnmatchedIsCopied(s[1..], p - 1, r);
      CopyOne(s, p, ReplaceTokens(s[p..], r));
    }
  }

  /** A text without a match stays, otherwise the name in the first match is replaced and the search goes on behind it. */
  lemma ReplaceTokensIsTold(s: string, r: Rule)
    ensures NoneBefore(s, |s|, r.from) ==> ReplaceTokens(s, r) == s
    ensures forall p: nat, n: nat | TokenAt(s, p, n, r.from) && NoneBefore(s, p, r.from) ::
              ReplaceTokens(s, r) == s[..p + 1] + r.to + s[p + 1 + |r.from|..p + n] + ReplaceTokens(s[p + n..], r)
  {
    if NoneBefore(s, |s|, r.from) {
      UnmatchedIsCopied(s, |s|, r);
      assert s[|s|..] == "" && s[..|s|] + "" == s;
    }
    forall p: nat, n: nat | TokenAt(s, p, n, r.from) && NoneBefore(s, p, r.from)
      ensures ReplaceTokens(s, r) == s[..p + 1] + r.to + s[p + 1 + |r.from|..p + n] + ReplaceTokens(s[p + n..], r)
    {
      FirstIsReplaced(s, p, n, r);
    }
  }

  lemma FirstIsReplaced(s: string, p: nat, n: nat, r: Rule)
    requires TokenAt(s, p, n, r.from) && NoneBefore(s, p, r.from)
    ensures ReplaceTokens(s, r) == s[..p + 1] + r.to + s[p + 1 + |r.from|..p + n] + ReplaceTokens(s[p + n..], r)
  {
    UnmatchedIsCopied(s, p, r);
    AtIsReplaced(s, p, n, r);
    Assemble(s, p, r.to, s[p + 1 + |r.from|..p + n], ReplaceTokens(s[p + n..], r), ReplaceTokens(s[p..], r), ReplaceTokens(s, r));
  }

  lemma AtIsReplaced(s: string, p: nat, n: nat, r: Rule)
    requires TokenAt(s, p, n, r.from)
    ensures p < |s| && p + n <= |s| && 1 + |r.from| <= n
    ensures ReplaceTokens(s[p..], r) == [s[p]] + r.to + s[p + 1 + |r.from|..p + n] + ReplaceTokens(s[p + n..], r)
  {
    TokenShifts(s, p, n, r.from);
    HereIsReplaced(s[p..], n, r);
    DropTwice(s, p, n, 1 + |r.from|);
  }

  lemma HereIsReplaced(s: string, n: nat, r: Rule)
    requires TokenAt(s, 0, n, r.from)
    ensures ReplaceTokens(s, r) == [s[0]] + r.to + s[1 + |r.from|..n] + ReplaceTokens(s[n..], r)
  {
    TokenIsTold(s, n, r.from);
  }

  lemma DropTwice(s: string, p: nat, n: nat, k: nat)
    requires k <= n && p + n <= |s|
    ensures s[p..][k..n] == s[p + k..p + n] && s[p..][n..] == s[p + n..]
  {
  }

  lemma Assemble(s: string, p: nat, image: string, middle: string, tail: string, here: string, out: string)
    requires p < |s| && here == [s[p]] + image + middle + tail && out == s[..p] + here
    ensures out == s[..p + 1] + image + middle + tail
  {
    var a, b := s[..p], [s[p]];
    TakeOneMore(s, p);
    assert a + (b + image + middle + tail) == a + b + image + middle + tail;
  }

  // ---- YAML names ----

  ghost predicate AllSpace(s: string) {
    forall k | 0 <= k < |s| :: IsSpace(s[k])
  }

  ghost predicate AllBlank(s: string) {
    forall k | 0 <= k < |s| :: s[k] == ' ' || s[k] == '\t'
  }

  /** White space, perhaps a dash at i and more white space, and the key at j. */
  ghost predicate KeyAt(line: string, i: nat, j: nat) {
    && i <= j && j + 5 <= |line| && AllSpace(line[..i]) && (i == j || (line[i] == '-' && AllSpace(line[i + 1..j])))
    && line[j..j + 5] == "name:"
  }

  /** Blanks, and at q the end or a comment. */
  ghost predicate EndsAt(line: string, p: nat, q: nat) {
    p <= q <= |line| && AllBlank(line[p..q]) && (q == |line| || line[q] == '#')
  }

  /** The key at j, one blank or more, the name at p, and nothing more but blanks and a comment. */
  ghost predicate YamlAt(line: string, i: nat, j: nat, p: nat, q: nat, name: string) {
    && KeyAt(line, i, j)
    && j + 5 < p && p + |name| <= |line| && AllBlank(line[j + 5..p]) && line[p..p + |name|] == name
    && EndsAt(line, p + |name|, q)
  }

  ghost predicate YamlNameAt(line: string, p: nat, name: string) {
    exists i, j, q :: YamlAt(line, i, j, p, q, name)
  }

  /** The key start is where the expression finds it. */
  lemma KeyStartIs(line: string, i: nat, j: nat)
    requires i <= j < |line| && AllSpace(line[..i]) && (i == j || (line[i] == '-' && AllSpace(line[i + 1..j]))) && line[j] == 'n'
    ensures KeyStart(line) == j
  {
    assert forall k | 0 <= k < i :: line[..i][k] == line[k];
    SkipWhileIs(line, IsSpace, i);
    if i < j {
      var rest := line[i + 1..];
      assert forall k | 0 <= k < j - i - 1 :: line[i + 1..j][k] == rest[k];
      SkipWhileIs(rest, IsSpace, j - i - 1);
    }
  }

  /** Blanks from one position to another, where they end. */
  lemma BlanksAre(s: string, p: nat, q: nat)
    requires p <= q <= |s| && AllBlank(s[p..q]) && (q < |s| ==> s[q] != ' ' && s[q] != '\t')
    ensures SkipWhile(s[p..], IsBlank) == q - p
  {
    assert forall k | 0 <= k < q - p :: s[p..q][k] == s[p..][k];
    SkipWhileIs(s[p..], IsBlank, q - p);
  }

  lemma StandsHere(s: string, p: nat, w: string)
    requires p + |w| <= |s|
    ensures s[p..p + |w|] == w <==> w <= s[p..]
    ensures s[p..p + |w|] == w && w != "" ==> s[p] == w[0]
  {
    assert s[p..][..|w|] == s[p..p + |w|];
  }

  lemma ValueIsFound(line: string, j: nat, p: nat, name: string)
    requires IsName(name) && j + 5 < p < |line| && line[p] == name[0] && KeyStart(line) == j
    requires "name:" <= line[j..] && AllBlank(line[j + 5..p])
    ensures ValueStart(line) == Some(p)
  {
    assert !IsSpace(name[0]);
    BlanksAre(line, j + 5, p);
  }

  lemma KeyStands(line: string, i: nat, j: nat)
    requires KeyAt(line, i, j)
    ensures KeyStart(line) == j && "name:" <= line[j..]
  {
    StandsHere(line, j, "name:");
    KeyStartIs(line, i, j);
  }

  lemma YamlIsFound(line: string, i: nat, j: nat, p: nat, q: nat, name: string)
    requires IsName(name) && YamlAt(line, i, j, p, q, name)
    ensures ValueStart(line) == Some(p) && IsYamlName(line, true, name)
  {
    KeyStands(line, i, j);
    StandsHere(line, p, name);
    ValueIsFound(line, j, p, name);
    BlanksAre(line, p + |name|, q);
  }

  lemma SkippedIs(s: string, p: nat, test: char -> bool)
    requires p <= |s|
    ensures var q := p + SkipWhile(s[p..], test);
            p <= q <= |s| && (forall k | 0 <= k < q - p :: test(s[p..q][k]))
  {
    assert s[p..][..SkipWhile(s[p..], test)] == s[p..p + SkipWhile(s[p..], test)];
  }

  lemma HeadIsSpace(line: string)
    ensures AllSpace(line[..SkipWhile(line, IsSpace)])
  {
  }

  lemma KeyIsFound(line: string) returns (i: nat)
    requires ValueStart(line).Some?
    ensures KeyAt(line, i, KeyStart(line))
  {
    i := SkipWhile(line, IsSpace);
    HeadIsSpace(line);
    if i < |line| && line[i] == '-' { SkippedIs(line, i + 1, IsSpace); }
    StandsHere(line, KeyStart(line), "name:");
  }

  lemma EndIsFound(line: string, p: nat) returns (q: nat)
    requires p <= |line| && OnlyComment(line[p..], true)
    ensures EndsAt(line, p, q)
  {
    q := p + SkipWhile(line[p..], IsBlank);
    SkippedIs(line, p, IsBlank);
  }

  lemma FoundIsYaml(line: string, name: string) returns (i: nat, j: nat, q: nat)
    requires IsYamlName(line, true, name)
    ensures YamlAt(line, i, j, ValueStart(line).value, q, name)
  {
    var p := ValueStart(line).value;
    j := KeyStart(line);
    i := KeyIsFound(line);
    BlanksAreFound(line, j);
    StandsHere(line, p, name);
    q := EndIsFound(line, p + |name|);
  }

  lemma BlanksAreFound(line: string, j: nat)
    requires j <= |line| && ValueOf(line, j).Some?
    ensures AllBlank(line[j + 5..ValueOf(line, j).value])
  {
    SkippedIs(line, j + 5, IsBlank);
  }

  lemma YamlIsReplaced(line: string, p: nat, r: Rule)
    requires IsName(r.from) && YamlNameAt(line, p, r.from)
    ensures p + |r.from| <= |line| && ReplaceYamlName(line, true, r) == line[..p] + r.to + line[p + |r.from|..]
  {
    var i, j, q :| YamlAt(line, i, j, p, q, r.from);
    YamlIsFound(line, i, j, p, q, r.from);
  }

  lemma NoYamlName(line: string, r: Rule)
    requires forall p: nat :: !YamlNameAt(line, p, r.from)
    ensures ReplaceYamlName(line, true, r) == line
  {
    if IsYamlName(line, true, r.from) {
      var i, j, q := FoundIsYaml(line, r.from);
      assert YamlNameAt(line, ValueStart(line).value, r.from);
    }
  }

  /** One line: the name is replaced where it stands, and a line without one stays. */
  lemma YamlLineIsTold(line: string, r: Rule)
    requires IsName(r.from)
    ensures (forall p: nat :: !YamlNameAt(line, p, r.from)) ==> ReplaceYamlName(line, true, r) == line
    ensures forall p: nat | YamlNameAt(line, p, r.from) ::
              p + |r.from| <= |line| && ReplaceYamlName(line, true, r) == line[..p] + r.to + line[p + |r.from|..]
  {
    if forall p: nat :: !YamlNameAt(line, p, r.from) { NoYamlName(line, r); }
    forall p: nat | YamlNameAt(line, p, r.from)
      ensures p + |r.from| <= |line| && ReplaceYamlName(line, true, r) == line[..p] + r.to + line[p + |r.from|..]
    {
      YamlIsReplaced(line, p, r);
    }
  }

  /** No line feed, carriage return, line separator or paragraph separator. */
  ghost predicate OneLine(s: string) {
    forall k | 0 <= k < |s| :: s[k] != '\n' && s[k] != '\r' && s[k] != '\U{2028}' && s[k] != '\U{2029}'
  }

  /** Lines are rewritten one by one and their terminators stay. */
  lemma YamlNamesAreTold(line: string, stop: char, rest: string, r: Rule)
    requires OneLine(line) && !OneLine([stop])
    ensures ReplaceYamlNames(line, r) == ReplaceYamlName(line, true, r)
    ensures ReplaceYamlNames(line + [stop] + rest, r) == ReplaceYamlName(line, true, r) + [stop] + ReplaceYamlNames(rest, r)
  {
    SkipWhileIs(line, NotTerminator, |line|);
    var s := line + [stop] + rest;
    SkipWhileIs(s, NotTerminator, |line|);
    assert s[..|line|] == line && s[|line| + 1..] == rest;
  }

  /** A line is rewritten by one name after the other, each with its tokens first and its YAML names next. */
  lemma {:induction false} NamesInTurn(line: string, before: seq<Rule>, r: Rule)
    ensures RewriteLine(line, []) == line
    ensures RewriteLine(line, before + [r]) == ReplaceYamlNames(ReplaceTokens(RewriteLine(line, before), r), r)
    decreases |before|
  {
    if before == [] {
      assert before + [r] == [r] && [r][1..] == [];
    } else {
      assert (before + [r])[1..] == before[1..] + [r];
      NamesInTurn(ReplaceYamlNames(ReplaceTokens(line, before[0]), before[0]), before[1..], r);
    }
  }
}
