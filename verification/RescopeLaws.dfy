/**
 * How the rewrites of several names combine on one line: they commute, so the
 * reverse pass undoes the forward pass name by name, and a second forward pass
 * is idle exactly when no two tokens of one name share a quote.
 */
module RescopeLaws {
  import opened Prelude
  import opened Text
  import opened RescopeText
  import opened RescopeCells

  /** One of the two rewrites of a rule. */
  datatype Op = Tokens(rule: Rule) | Yaml(rule: Rule)

  function Flip(r: Rule): Rule {
    Rule(r.to, r.from)
  }

  function Inverse(op: Op): Op {
    op.(rule := Flip(op.rule))
  }

  /** The content is a place where the rewrite can apply. */
  predicate Matches(op: Op, content: string) {
    match op
    case Tokens(r) => IsToken(content, r.from)
    case Yaml(r) => IsYamlName(content, true, r.from)
  }

  function Image(op: Op, content: string): string
    requires Matches(op, content)
  {
    match op
    case Tokens(r) => r.to + content[|r.from|..]
    case Yaml(r) => Substitute(content, ValueStart(content).value, r)
  }

  /** Whether the rewrite applies to the first cell. */
  predicate Hit(op: Op, t: Line, open: Option<char>, first: bool) {
    match op
    case Tokens(r) => t.Cell? && open == Some(t.delimiter) && IsToken(t.content, r.from)
    case Yaml(r) => first && IsYamlName(t.content, t.End? || IsTerminator(t.delimiter), r.from)
  }

  lemma HitMatches(op: Op, t: Line, open: Option<char>, first: bool)
    requires Hit(op, t, open, first)
    ensures Matches(op, t.content)
  {
  }

  /** The quote open after the first cell. */
  function NextOpen(op: Op, t: Line, open: Option<char>, first: bool): Option<char>
    requires t.Cell?
  {
    if op.Tokens? && Hit(op, t, open, first) then None else Opens(t.delimiter)
  }

  function NewContent(op: Op, t: Line, open: Option<char>, first: bool): string {
    if Hit(op, t, open, first) then (HitMatches(op, t, open, first); Image(op, t.content)) else t.content
  }

  /** Either rewrite, from any point of a line. */
  function Run(op: Op, t: Line, open: Option<char>, first: bool): Line {
    match t
    case End(_) => End(NewContent(op, t, open, first))
    case Cell(_, delimiter, rest) =>
      Cell(NewContent(op, t, open, first), delimiter, Run(op, rest, NextOpen(op, t, open, first), IsTerminator(delimiter)))
  }

  function Apply(op: Op, t: Line): Line {
    Run(op, t, None, true)
  }

  lemma {:induction false} RunIsTokens(r: Rule, t: Line, open: Option<char>, first: bool)
    ensures Run(Tokens(r), t, open, first) == TokenCells(t, open, r)
  {
    if t.Cell? { RunIsTokens(r, t.rest, NextOpen(Tokens(r), t, open, first), IsTerminator(t.delimiter)); }
  }

  lemma {:induction false} RunIsYaml(r: Rule, t: Line, open: Option<char>, first: bool)
    ensures Run(Yaml(r), t, open, first) == YamlCells(t, first, r)
  {
    if t.Cell? { RunIsYaml(r, t.rest, NextOpen(Yaml(r), t, open, first), IsTerminator(t.delimiter)); }
  }

  // ---- Forms: contents that only one name can rewrite, in either direction ----

  predicate Form(op: Op, content: string) {
    Matches(op, content) || Matches(Inverse(op), content)
  }

  ghost predicate IsOp(op: Op) {
    IsRule(op.rule)
  }

  /** Rules about different names. */
  ghost predicate ApartRules(a: Rule, b: Rule) {
    Apart(a.from, b.from) && Apart(a.from, b.to) && Apart(a.to, b.from) && Apart(a.to, b.to)
  }

  ghost predicate Independent(a: Op, b: Op) {
    IsOp(a) && IsOp(b) && (a.Tokens? == b.Tokens? ==> ApartRules(a.rule, b.rule))
  }

  lemma TokenIsOne(content: string, a: string, b: string)
    requires IsToken(content, a) && IsToken(content, b)
    ensures !Apart(a, b)
  {
    if |a| < |b| {
      assert b[|a|] == content[|a|] == '/';
      assert a + "/" <= b;
    } else if |b| < |a| {
      assert a[|b|] == content[|b|] == '/';
      assert b + "/" <= a;
    } else {
      assert a == content[..|a|] == b;
    }
  }

  lemma YamlNameIsOne(content: string, a: string, b: string)
    requires IsName(a) && IsName(b) && IsYamlName(content, true, a) && IsYamlName(content, true, b)
    ensures a == b
  {
    var p := ValueStart(content).value;
    if |a| < |b| {
      NameEnds(content, p, a, b);
    } else if |b| < |a| {
      NameEnds(content, p, b, a);
    } else {
      assert a == content[p..p + |a|] == b;
    }
  }

  lemma NameEnds(content: string, p: nat, a: string, b: string)
    requires p <= |content| && IsName(b) && |a| < |b|
    ensures !(NamedAt(content, p, true, a) && b <= content[p..])
  {
    if p + |a| < |content| {
      assert content[p + |a|..][0] == content[p + |a|] == content[p..][|a|];
    }
    assert !IsBlank(b[|a|]) && b[|a|] != '#' by { assert !IsSpace(b[|a|]); }
  }

  /** A token holds no white space, while a YAML value follows some. */
  lemma TokenIsNotYaml(content: string, a: string, b: string)
    requires IsName(a)
    ensures !(IsToken(content, a) && IsYamlName(content, true, b))
  {
    var j := KeyStart(content);
    if ValueStart(content).Some? {
      assert IsBlank(content[j + 5..][0]);
      assert IsSpace(content[j + 5]);
      if j + 5 < |a| {
        assert !IsSpace(a[j + 5]);
      }
    }
  }

  lemma FormsExclude(a: Op, b: Op, content: string)
    requires Independent(a, b) && Form(a, content)
    ensures !Form(b, content)
  {
    if Form(b, content) {
      var x := if Matches(a, content) then a.rule.from else a.rule.to;
      var y := if Matches(b, content) then b.rule.from else b.rule.to;
      if a.Tokens? && b.Tokens? {
        TokenIsOne(content, x, y);
      } else if a.Yaml? && b.Yaml? {
        YamlNameIsOne(content, x, y);
      } else if a.Tokens? {
        TokenIsNotYaml(content, x, y);
      } else {
        TokenIsNotYaml(content, y, x);
      }
      assert false;
    }
  }

  lemma OneSide(op: Op, content: string)
    requires IsOp(op) && Matches(op, content)
    ensures !Matches(Inverse(op), content)
  {
    if Matches(Inverse(op), content) {
      if op.Tokens? {
        TokenIsOne(content, op.rule.from, op.rule.to);
      } else {
        YamlNameIsOne(content, op.rule.from, op.rule.to);
      }
    }
  }

  // ---- Rewriting a content, and back ----

  lemma TokenImage(r: Rule, content: string)
    requires IsRule(r) && IsToken(content, r.from)
    ensures var image := r.to + content[|r.from|..];
            IsToken(image, r.to) && r.from + image[|r.to|..] == content
  {
    var image := r.to + content[|r.from|..];
    assert image[..|r.to|] == r.to && image[|r.to|..] == content[|r.from|..];
    assert content == content[..|r.from|] + content[|r.from|..];
    forall i | |r.to| <= i < |image| && |image| > |r.to| ensures !IsSpace(image[i]) {
      assert image[i] == content[i - |r.to| + |r.from|];
    }
  }

  lemma KeyStartLocal(content: string, other: string, p: nat)
    requires KeyStart(content) < p <= |content| && p <= |other| && forall k | 0 <= k < p :: other[k] == content[k]
    requires content[KeyStart(content)] == 'n'
    ensures KeyStart(other) == KeyStart(content)
  {
    var i, j := SkipWhile(content, IsSpace), KeyStart(content);
    SkipWhileIs(other, IsSpace, i);
    if content[i] == '-' {
      SkipWhileIs(other[i + 1..], IsSpace, j - i - 1);
    }
  }

  lemma ValueOfLocal(content: string, other: string, j: nat, p: nat)
    requires j <= |content| && ValueOf(content, j) == Some(p)
    requires p < |other| && (forall k | 0 <= k < p :: other[k] == content[k]) && !IsBlank(other[p])
    ensures ValueOf(other, j) == Some(p)
  {
    assert other[j..][..5] == content[j..][..5] == "name:";
    var tail, rest := content[j + 5..], other[j + 5..];
    forall k | 0 <= k < p - j - 5 ensures IsBlank(rest[k]) {
      assert rest[k] == other[j + 5 + k] == content[j + 5 + k] == tail[k];
    }
    assert rest[p - j - 5] == other[p];
    SkipWhileIs(rest, IsBlank, p - j - 5);
  }

  /** Keeping a head up to a value and changing the value keeps where it starts. */
  lemma ValueStartLocal(content: string, other: string, p: nat)
    requires ValueStart(content) == Some(p)
    requires p < |other| && (forall k | 0 <= k < p :: other[k] == content[k]) && !IsBlank(other[p])
    ensures ValueStart(other) == Some(p)
  {
    var j := KeyStart(content);
    assert content[j..][0] == 'n';
    KeyStartLocal(content, other, p);
    ValueOfLocal(content, other, j, p);
  }

  lemma ReplaceMiddle(head: string, a: string, b: string, tail: string)
    ensures var s := head + b + tail;
            && s[..|head|] == head && s[|head|..] == b + tail && s[|head| + |b|..] == tail
            && s[..|head|] + a + s[|head| + |b|..] == head + a + tail
  {
  }

  lemma SplitAt(content: string, p: nat, name: string)
    requires p <= |content| && name <= content[p..]
    ensures content == content[..p] + name + content[p + |name|..]
  {
    assert content[p..] == name + content[p + |name|..];
  }

  lemma YamlImageParts(r: Rule, head: string, tail: string, last: bool)
    requires IsRule(r) && ValueStart(head + r.from + tail) == Some(|head|) && OnlyComment(tail, last)
    ensures ValueStart(head + r.to + tail) == Some(|head|)
    ensures NamedAt(head + r.to + tail, |head|, last, r.to)
    ensures r.to <= (head + r.to + tail)[|head|..]
    ensures Substitute(head + r.to + tail, |head|, Flip(r)) == head + r.from + tail
  {
    ValueStartAfter(head, r.from, r.to, tail);
    ReplaceMiddle(head, r.from, r.to, tail);
  }

  lemma ValueStartAfter(head: string, a: string, b: string, tail: string)
    requires ValueStart(head + a + tail) == Some(|head|) && b != "" && !IsSpace(b[0])
    ensures ValueStart(head + b + tail) == Some(|head|)
  {
    var content, image := head + a + tail, head + b + tail;
    assert image[|head|] == b[0];
    assert forall k | 0 <= k < |head| :: image[k] == head[k] == content[k];
    ValueStartLocal(content, image, |head|);
  }

  lemma YamlImage(r: Rule, content: string, last: bool)
    requires IsRule(r) && IsYamlName(content, last, r.from)
    ensures var image := Substitute(content, ValueStart(content).value, r);
            && ValueStart(image) == ValueStart(content)
            && IsYamlName(image, last, r.to)
            && Substitute(image, ValueStart(image).value, Flip(r)) == content
  {
    var p := ValueStart(content).value;
    SplitAt(content, p, r.from);
    YamlImageParts(r, content[..p], content[p + |r.from|..], last);
  }

  lemma ImageFacts(op: Op, content: string)
    requires IsOp(op) && Matches(op, content)
    ensures Matches(Inverse(op), Image(op, content))
    ensures Image(Inverse(op), Image(op, content)) == content
    ensures Form(op, Image(op, content)) && Image(op, content) != content
  {
    match op
    case Tokens(r) => TokenImage(r, content);
    case Yaml(r) => YamlImage(r, content, true);
    OneSide(op, content);
  }
}
