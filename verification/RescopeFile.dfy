/** The rename of a whole file: its lines, its Markdown fences and the names its skips leave. */
module RescopeFile {
  import opened Prelude
  import opened Text
  import opened RescopeText
  import opened RescopeLaws
  import opened RescopeLines
  import opened RescopeDocument

  // ---- The rules of a file ----

  lemma {:induction false} NameOf(prefix: string, rest: string)
    requires prefix != "" && (forall i | 0 <= i < |prefix| :: !IsDelimiter(prefix[i]) && !IsSpace(prefix[i]) && prefix[i] != '#')
    requires IsName(rest)
    ensures IsName(prefix + rest)
  {
  }

  lemma CoresAreNames()
    ensures IsName("schemastery") && IsName("cosmokit") && IsName("cordis")
  {
  }

  lemma PluginsAreNames()
    ensures IsName("logger-console") && IsName("include") && IsName("loader") && IsName("group") && IsName("timer") && IsName("hmr")
  {
  }

  lemma PluginNames(suffix: string)
    requires IsName(suffix)
    ensures IsName(PluginRule(suffix).from) && IsName(PluginRule(suffix).to)
  {
    NameOf("@cordisjs/plugin-", suffix);
    NameOf("cordis-plugin-", suffix);
    NameOf("@deepseek-ai/", "cordis-plugin-" + suffix);
  }

  lemma PluginIsRule(suffix: string)
    requires IsName(suffix)
    ensures IsRule(PluginRule(suffix))
  {
    PluginNames(suffix);
    DifferentScopes("plugin-" + suffix, "cordis-plugin-" + suffix);
    assert "@cordisjs/plugin-" + suffix == "@cordisjs/" + ("plugin-" + suffix);
  }

  lemma CoreIsRule(name: string)
    requires IsName(name) && name[0] != '@'
    ensures IsRule(CoreRule(name))
  {
    NameOf("@deepseek-ai/", name);
    assert CoreRule(name).to[0] == '@';
    ScopedOrNot(name, CoreRule(name).to);
  }

  lemma CoresApart(a: string, b: string, i: nat)
    requires i < |a| && i < |b| && a[i] != b[i] && a[0] != '@' && b[0] != '@'
    ensures ApartRules(CoreRule(a), CoreRule(b)) && ApartRules(CoreRule(b), CoreRule(a))
  {
    DifferAt("", a, b, i);
    assert "" + a == a && "" + b == b;
    DifferAt("@deepseek-ai/", a, b, i);
    assert CoreRule(a).to[0] == '@' && CoreRule(b).to[0] == '@';
    ScopedOrNot(a, CoreRule(b).to);
    ScopedOrNot(b, CoreRule(a).to);
  }

  /** A core name is no parent path of a plugin's scoped name: after `cordis` comes a dash. */
  lemma PluginCoreApart(suffix: string, name: string)
    requires name in CORES
    ensures ApartRules(PluginRule(suffix), CoreRule(name)) && ApartRules(CoreRule(name), PluginRule(suffix))
  {
    var plugin, core := PluginRule(suffix), CoreRule(name);
    assert plugin.from[0] == '@' && plugin.to[0] == '@';
    ScopedOrNot(name, plugin.from);
    ScopedOrNot(name, plugin.to);
    assert plugin.from == "@cordisjs/" + ("plugin-" + suffix);
    DifferentScopes("plugin-" + suffix, name);
    var tail := "cordis-plugin-" + suffix;
    if name == "cordis" {
      assert tail[6] == "cordis-plugin-"[6] == '-';
      assert plugin.to[19] == '-' && (core.to + "/")[19] == '/' && |core.to| == 19 < |plugin.to|;
    } else {
      var i := if name == "cosmokit" then 2 else 0;
      assert tail[i] == "cordis-plugin-"[i];
      DifferAt("@deepseek-ai/", name, tail, i);
    }
  }

  lemma PluginsPairwise(i: nat, j: nat)
    requires i < j < |PLUGINS|
    ensures ApartRules(PluginRule(PLUGINS[i]), PluginRule(PLUGINS[j])) && ApartRules(PluginRule(PLUGINS[j]), PluginRule(PLUGINS[i]))
  {
    var k := if i == 0 && j == 2 then 2 else 0;
    assert PLUGINS[i][k] != PLUGINS[j][k];
    PluginsApart(PLUGINS[i], PLUGINS[j], k);
  }

  lemma CoresPairwise(i: nat, j: nat)
    requires i < j < |CORES|
    ensures ApartRules(CoreRule(CORES[i]), CoreRule(CORES[j])) && ApartRules(CoreRule(CORES[j]), CoreRule(CORES[i]))
  {
    var k := if i == 1 then 2 else 0;
    assert CORES[i][k] != CORES[j][k];
    CoresApart(CORES[i], CORES[j], k);
  }

  function RuleAt(i: nat): Rule
    requires i < 9
  {
    if i < 6 then PluginRule(PLUGINS[i]) else CoreRule(CORES[i - 6])
  }

  lemma RulesPairwise(i: nat, j: nat)
    requires i < j < 9
    ensures ApartRules(RuleAt(i), RuleAt(j)) && ApartRules(RuleAt(j), RuleAt(i))
  {
    if j < 6 {
      PluginsPairwise(i, j);
    } else if i >= 6 {
      CoresPairwise(i - 6, j - 6);
    } else {
      PluginCoreApart(PLUGINS[i], CORES[j - 6]);
    }
  }

  lemma RuleAtIsRule(i: nat)
    requires i < 9
    ensures IsRule(RuleAt(i))
  {
    CoresAreNames();
    PluginsAreNames();
    if i < 6 {
      PluginIsRule(PLUGINS[i]);
    } else {
      CoreIsRule(CORES[i - 6]);
    }
  }

  lemma RulesListed(rules: seq<Rule>)
    requires rules == RULES
    ensures |rules| == 9 && forall i: nat {:trigger rules[i]} | i < 9 :: rules[i] == RuleAt(i)
  {
    assert PLUGINS == ["logger-console", "include", "loader", "group", "timer", "hmr"];
    assert CORES == ["schemastery", "cosmokit", "cordis"];
  }

  lemma {:induction false} RulesFrom(rules: seq<Rule>, i: nat)
    requires |rules| == 9 && i <= 9 && forall k: nat {:trigger rules[k]} | k < 9 :: rules[k] == RuleAt(k)
    ensures Compatible(rules[i..])
    decreases 9 - i
  {
    if i < 9 {
      RulesFrom(rules, i + 1);
      RuleAtIsRule(i);
      assert rules[i..][1..] == rules[i + 1..] && rules[i..][0] == rules[i];
      LaterRulesApart(rules, i);
    }
  }

  lemma LaterRulesApart(rules: seq<Rule>, i: nat)
    requires |rules| == 9 && i < 9 && forall k: nat {:trigger rules[k]} | k < 9 :: rules[k] == RuleAt(k)
    ensures ApartFrom(rules[i], rules[i + 1..])
  {
    forall s | s in rules[i + 1..] ensures ApartRules(rules[i], s) && ApartRules(s, rules[i]) {
      var k :| i + 1 <= k < 9 && rules[k] == s;
      RulesPairwise(i, k);
    }
  }

  /** The nine names are pairwise different, and none is a parent path of another. */
  lemma TableIsCompatible()
    ensures Compatible(RULES)
  {
    RulesListed(RULES);
    RulesFrom(RULES, 0);
    assert RULES[0..] == RULES;
  }

  /** The names a file's skips leave, by upstream name. */
  function RulesOf(skipped: set<string>): seq<Rule> {
    Filter(RULES, (r: Rule) => r.from !in skipped)
  }

  lemma {:induction false} FilterIsCompatible(rules: seq<Rule>, p: Rule -> bool)
    requires Compatible(rules)
    ensures Compatible(Filter(rules, p))
  {
    if rules != [] {
      FilterIsCompatible(rules[1..], p);
      var rest := Filter(rules[1..], p);
      if p(rules[0]) { assert ([rules[0]] + rest)[1..] == rest; }
    }
  }

  lemma FileRulesAreCompatible(skipped: set<string>)
    ensures Compatible(RulesOf(skipped))
  {
    TableIsCompatible();
    FilterIsCompatible(RULES, (r: Rule) => r.from !in skipped);
  }

  /**
   * For the vendored names and any file: `--reverse` undoes `--apply` exactly
   * when no eligible line holds a stray scoped name, and a second `--apply` is
   * idle exactly when no eligible line has tokens sharing a quote.
   */
  lemma FileRoundTrip(text: string, place: Place, skipped: set<string>)
    ensures var rules := RulesOf(skipped);
            RewriteText(RewriteText(text, place, rules), place, FlipAll(rules)) == text
            <==> OnEligible(SplitLines(text), place, false, (line: string) => NoStrayName(line, rules))
    ensures var rules := RulesOf(skipped);
            RewriteText(RewriteText(text, place, rules), place, rules) == RewriteText(text, place, rules)
            <==> OnEligible(SplitLines(text), place, false, (line: string) => !TokensShareQuote(line, rules))
  {
    FileRulesAreCompatible(skipped);
    TextComesBack(text, place, RulesOf(skipped));
    TextIsIdempotent(text, place, RulesOf(skipped));
  }
}
