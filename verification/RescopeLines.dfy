/** The rename of one line of text, over the actual table of names. */
module RescopeLines {
  import opened Prelude
  import opened RescopeText
  import opened RescopeCells
  import opened RescopeLaws
  import opened RescopePasses

  // ---- From rules to rewrites ----

  function OpsOf(rules: seq<Rule>): seq<Op> {
    if rules == [] then [] else [Tokens(rules[0]), Yaml(rules[0])] + OpsOf(rules[1..])
  }

  function FlipAll(rules: seq<Rule>): seq<Rule> {
    if rules == [] then [] else [Flip(rules[0])] + FlipAll(rules[1..])
  }

  ghost predicate ApartFrom(r: Rule, rules: seq<Rule>) {
    forall s | s in rules :: ApartRules(r, s) && ApartRules(s, r)
  }

  /** Rules about pairwise different names. */
  ghost predicate Compatible(rules: seq<Rule>) {
    rules == [] || (IsRule(rules[0]) && ApartFrom(rules[0], rules[1..]) && Compatible(rules[1..]))
  }

  lemma {:induction false} OpsOfRules(rules: seq<Rule>)
    ensures forall i | 0 <= i < |OpsOf(rules)| :: OpsOf(rules)[i].rule in rules
    ensures forall r | r in rules :: Tokens(r) in OpsOf(rules) && Yaml(r) in OpsOf(rules)
  {
    if rules != [] {
      OpsOfRules(rules[1..]);
      var ops := OpsOf(rules);
      assert ops[0] == Tokens(rules[0]) && ops[1] == Yaml(rules[0]);
      forall i | 0 <= i < |ops| ensures ops[i].rule in rules {
        if i >= 2 { assert ops[i] == OpsOf(rules[1..])[i - 2]; }
      }
    }
  }

  lemma FirstOpsIndependent(r: Rule, op: Op)
    requires IsRule(r) && IsOp(op) && ApartRules(r, op.rule) && ApartRules(op.rule, r)
    ensures Independent(Tokens(r), op) && Independent(Yaml(r), op) && Independent(op, Tokens(r)) && Independent(op, Yaml(r))
  {
  }

  lemma {:induction false} CompatibleOps(rules: seq<Rule>)
    requires Compatible(rules)
    ensures AllIndependent(OpsOf(rules))
  {
    if rules != [] {
      var r, ops, rest := rules[0], OpsOf(rules), OpsOf(rules[1..]);
      CompatibleOps(rules[1..]);
      OpsOfRules(rules[1..]);
      forall k | 0 <= k < |rest|
        ensures Independent(Tokens(r), rest[k]) && Independent(Yaml(r), rest[k])
        ensures Independent(rest[k], Tokens(r)) && Independent(rest[k], Yaml(r))
      {
        FirstOpsIndependent(r, rest[k]);
      }
      TwoMoreIndependent(r, rest);
      assert ops == [Tokens(r), Yaml(r)] + rest;
    }
  }

  lemma TwoMoreIndependent(r: Rule, rest: seq<Op>)
    requires IsRule(r) && AllIndependent(rest)
    requires forall k | 0 <= k < |rest| ::
               && Independent(Tokens(r), rest[k]) && Independent(Yaml(r), rest[k])
               && Independent(rest[k], Tokens(r)) && Independent(rest[k], Yaml(r))
    ensures AllIndependent([Tokens(r), Yaml(r)] + rest)
  {
  }

  lemma {:induction false} InversesOfOps(rules: seq<Rule>)
    ensures Inverses(OpsOf(rules)) == OpsOf(FlipAll(rules))
  {
    if rules != [] {
      InversesOfOps(rules[1..]);
      var ops := OpsOf(rules);
      assert ops[1..][1..] == OpsOf(rules[1..]);
    }
  }

  lemma {:induction false} FlippedAreRules(rules: seq<Rule>)
    requires Compatible(rules)
    ensures forall r | r in FlipAll(rules) :: IsRule(r)
    ensures forall r | r in rules :: IsRule(r)
  {
    if rules != [] { FlippedAreRules(rules[1..]); }
  }

  // ---- A rewritten line, as cells ----

  lemma {:induction false} RunIsWellFormed(op: Op, t: Line, open: Option<char>, first: bool)
    requires IsOp(op) && WellFormed(t)
    ensures WellFormed(Run(op, t, open, first))
  {
    if Hit(op, t, open, first) {
      HitMatches(op, t, open, first);
      ImageIsPlain(op, t.content);
    }
    if t.Cell? { RunIsWellFormed(op, t.rest, NextOpen(op, t, open, first), IsTerminator(t.delimiter)); }
  }

  lemma ImageIsPlain(op: Op, content: string)
    requires IsOp(op) && Matches(op, content) && Plain(content)
    ensures Plain(Image(op, content))
  {
    match op
    case Tokens(r) =>
      PlainSlices(content, 0, |r.from|);
      PlainParts("", r.to, content[|r.from|..]);
      assert "" + r.to == r.to;
    case Yaml(r) =>
      var p := ValueStart(content).value;
      PlainSlices(content, p, p + |r.from|);
      PlainParts(content[..p], r.to, content[p + |r.from|..]);
  }

  lemma PlainSlices(content: string, p: nat, q: nat)
    requires Plain(content) && p <= q <= |content|
    ensures Plain(content[..p]) && Plain(content[q..])
  {
  }

  lemma PlainParts(a: string, b: string, c: string)
    requires Plain(a) && Plain(b) && Plain(c)
    ensures Plain(a + b + c)
  {
  }

  lemma RewriteOne(line: string, r: Rule)
    requires IsRule(r)
    ensures Parse(ReplaceYamlNames(ReplaceTokens(line, r), r)) == Apply(Yaml(r), Apply(Tokens(r), Parse(line)))
  {
    var t := Parse(line);
    UnparseParse(line);
    TokensMatch(t, r);
    RunIsTokens(r, t, None, true);
    var u := Apply(Tokens(r), t);
    RunIsWellFormed(Tokens(r), t, None, true);
    YamlMatches(u, r);
    RunIsYaml(r, u, None, true);
    RunIsWellFormed(Yaml(r), u, None, true);
    ParseUnparse(Apply(Yaml(r), u));
  }

  lemma {:induction false} RewriteLineIsApplyAll(line: string, rules: seq<Rule>)
    requires forall r | r in rules :: IsRule(r)
    ensures Parse(RewriteLine(line, rules)) == ApplyAll(OpsOf(rules), Parse(line))
    decreases |rules|
  {
    if rules != [] {
      var r := rules[0];
      RewriteOne(line, r);
      RewriteLineIsApplyAll(ReplaceYamlNames(ReplaceTokens(line, r), r), rules[1..]);
      var ops, t := OpsOf(rules), Parse(line);
      assert ops[1..][1..] == OpsOf(rules[1..]) && ops[0] == Tokens(r) && ops[1..][0] == Yaml(r);
      assert ApplyAll(ops, t) == ApplyAll(ops[1..], Apply(Tokens(r), t));
    }
  }

  lemma SameCells(a: string, b: string)
    ensures Parse(a) == Parse(b) <==> a == b
  {
    UnparseParse(a);
    UnparseParse(b);
  }

  // ---- Reversing a line ----

  /** The line holds no scoped name where the forward pass leaves one to be matched. */
  predicate NoStrayName(line: string, rules: seq<Rule>) {
    forall r | r in rules :: NoStray(Tokens(r), Parse(line), None, true) && NoStray(Yaml(r), Parse(line), None, true)
  }

  /** `--reverse` restores a rewritten line exactly when it held no stray scoped name. */
  lemma LineComesBack(line: string, rules: seq<Rule>)
    requires Compatible(rules)
    ensures RewriteLine(RewriteLine(line, rules), FlipAll(rules)) == line <==> NoStrayName(line, rules)
  {
    var ops, t := OpsOf(rules), Parse(line);
    CompatibleOps(rules);
    FlippedAreRules(rules);
    InversesOfOps(rules);
    RewriteLineIsApplyAll(line, rules);
    RewriteLineIsApplyAll(RewriteLine(line, rules), FlipAll(rules));
    SameCells(RewriteLine(RewriteLine(line, rules), FlipAll(rules)), line);
    UndoAll(ops, t);
    StraysByOp(ops, t, line, rules);
  }

  lemma StraysByOp(ops: seq<Op>, t: Line, line: string, rules: seq<Rule>)
    requires ops == OpsOf(rules) && t == Parse(line)
    ensures NoStrayName(line, rules) <==> forall i | 0 <= i < |ops| :: NoStray(ops[i], t, None, true)
  {
    OpsOfRules(rules);
    if NoStrayName(line, rules) {
      forall i | 0 <= i < |ops| ensures NoStray(ops[i], t, None, true) {
        assert ops[i].rule in rules;
      }
    }
    if forall i | 0 <= i < |ops| :: NoStray(ops[i], t, None, true) {
      forall r | r in rules ensures NoStray(Tokens(r), t, None, true) && NoStray(Yaml(r), t, None, true) {
        var i :| 0 <= i < |ops| && ops[i] == Tokens(r);
        var j :| 0 <= j < |ops| && ops[j] == Yaml(r);
      }
    }
  }

  /** In particular a line in which reversing any one name finds nothing comes back. */
  lemma CleanLineComesBack(line: string, rules: seq<Rule>)
    requires Compatible(rules)
    requires forall r | r in rules :: ReplaceTokens(line, Flip(r)) == line && ReplaceYamlNames(line, Flip(r)) == line
    ensures RewriteLine(RewriteLine(line, rules), FlipAll(rules)) == line
  {
    FlippedAreRules(rules);
    forall r | r in rules ensures NoStray(Tokens(r), Parse(line), None, true) && NoStray(Yaml(r), Parse(line), None, true) {
      NothingScoped(line, r);
    }
    LineComesBack(line, rules);
  }

  lemma NothingScoped(line: string, r: Rule)
    requires IsRule(r) && ReplaceTokens(line, Flip(r)) == line && ReplaceYamlNames(line, Flip(r)) == line
    ensures NoStray(Tokens(r), Parse(line), None, true) && NoStray(Yaml(r), Parse(line), None, true)
  {
    var t := Parse(line);
    UnparseParse(line);
    TokensMatch(t, Flip(r));
    YamlMatches(t, Flip(r));
    RunIsTokens(Flip(r), t, None, true);
    RunIsYaml(Flip(r), t, None, true);
    RunIsWellFormed(Tokens(Flip(r)), t, None, true);
    RunIsWellFormed(Yaml(Flip(r)), t, None, true);
    ParseUnparse(Apply(Tokens(Flip(r)), t));
    ParseUnparse(Apply(Yaml(Flip(r)), t));
    NothingToReverse(Tokens(r), t, None, None, true);
    NothingToReverse(Yaml(r), t, None, None, true);
  }

  // ---- Rewriting a line twice ----

  /** Two tokens of one name on either side of a quote that both would need. */
  predicate TokensShareQuote(line: string, rules: seq<Rule>) {
    exists r | r in rules :: SharesQuote(Tokens(r), Parse(line), None)
  }

  lemma {:induction false} YamlSharesNothing(r: Rule, t: Line, quote: Option<char>)
    ensures !SharesQuote(Yaml(r), t, quote)
  {
    if t.Cell? { YamlSharesNothing(r, t.rest, Opens(t.delimiter)); }
  }

  /** A second pass changes nothing exactly when no two tokens of one name share a quote. */
  lemma LineIsIdempotent(line: string, rules: seq<Rule>)
    requires Compatible(rules)
    ensures RewriteLine(RewriteLine(line, rules), rules) == RewriteLine(line, rules) <==> !TokensShareQuote(line, rules)
  {
    var ops, t := OpsOf(rules), Parse(line);
    CompatibleOps(rules);
    FlippedAreRules(rules);
    RewriteLineIsApplyAll(line, rules);
    RewriteLineIsApplyAll(RewriteLine(line, rules), rules);
    SameCells(RewriteLine(RewriteLine(line, rules), rules), RewriteLine(line, rules));
    RepeatAll(ops, t);
    SharingByOp(ops, t, rules);
  }

  lemma SharingByOp(ops: seq<Op>, t: Line, rules: seq<Rule>)
    requires ops == OpsOf(rules)
    ensures (exists r | r in rules :: SharesQuote(Tokens(r), t, None)) <==> exists i | 0 <= i < |ops| :: SharesQuote(ops[i], t, None)
  {
    OpsOfRules(rules);
    if r :| r in rules && SharesQuote(Tokens(r), t, None) {
      var i :| 0 <= i < |ops| && ops[i] == Tokens(r);
    }
    if i :| 0 <= i < |ops| && SharesQuote(ops[i], t, None) {
      YamlSharesNothing(ops[i].rule, t, None);
      assert ops[i] == Tokens(ops[i].rule);
    }
  }

  // ---- The vendored names ----

  function PluginRule(suffix: string): Rule {
    Rule("@cordisjs/plugin-" + suffix, "@deepseek-ai/" + ("cordis-plugin-" + suffix))
  }

  function CoreRule(name: string): Rule {
    Rule(name, "@deepseek-ai/" + name)
  }

  const PLUGINS := ["logger-console", "include", "loader", "group", "timer", "hmr"]
  const CORES := ["schemastery", "cosmokit", "cordis"]

  /** The names in the order both directions use: longest first, ties in table order. */
  const RULES := [
    PluginRule("logger-console"), PluginRule("include"), PluginRule("loader"), PluginRule("group"), PluginRule("timer"),
    PluginRule("hmr"), CoreRule("schemastery"), CoreRule("cosmokit"), CoreRule("cordis")]

  lemma DifferAt(prefix: string, a: string, b: string, i: nat)
    requires i < |a| && i < |b| && a[i] != b[i]
    ensures Apart(prefix + a, prefix + b) && Apart(prefix + b, prefix + a)
  {
    var k := |prefix| + i;
    assert (prefix + a)[k] == a[i] && (prefix + b)[k] == b[i];
    assert (prefix + a + "/")[k] == a[i] && (prefix + b + "/")[k] == b[i];
  }

  lemma PluginsApart(a: string, b: string, i: nat)
    requires i < |a| && i < |b| && a[i] != b[i]
    ensures ApartRules(PluginRule(a), PluginRule(b)) && ApartRules(PluginRule(b), PluginRule(a))
  {
    DifferAt("@cordisjs/plugin-", a, b, i);
    assert "@deepseek-ai/" + ("cordis-plugin-" + a) == "@deepseek-ai/cordis-plugin-" + a;
    assert "@deepseek-ai/" + ("cordis-plugin-" + b) == "@deepseek-ai/cordis-plugin-" + b;
    DifferAt("@deepseek-ai/cordis-plugin-", a, b, i);
    DifferentScopes("plugin-" + a, "cordis-plugin-" + b);
    DifferentScopes("plugin-" + b, "cordis-plugin-" + a);
    assert "@cordisjs/plugin-" + a == "@cordisjs/" + ("plugin-" + a);
    assert "@cordisjs/plugin-" + b == "@cordisjs/" + ("plugin-" + b);
  }

  lemma DifferentScopes(a: string, b: string)
    ensures Apart("@cordisjs/" + a, "@deepseek-ai/" + b) && Apart("@deepseek-ai/" + b, "@cordisjs/" + a)
  {
    var x, y := "@cordisjs/" + a, "@deepseek-ai/" + b;
    assert x[1] == 'c' && y[1] == 'd';
    DifferAt("", x, y, 1);
    assert "" + x == x && "" + y == y;
  }

  lemma ScopedOrNot(plain: string, scoped: string)
    requires plain != "" && plain[0] != '@' && scoped != "" && scoped[0] == '@'
    ensures Apart(plain, scoped) && Apart(scoped, plain)
  {
    DifferAt("", plain, scoped, 0);
    assert "" + plain == plain && "" + scoped == scoped;
  }
}
