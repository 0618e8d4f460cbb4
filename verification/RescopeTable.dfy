/** The rename table of scripts/rescope-vendor.ts and the order its patterns are sorted into. */
module RescopeTable {
  import opened Text
  import opened RescopeText
  import opened RescopeLaws
  import opened RescopeLines
  import opened Sorting

  /** The table as written. */
  const RENAMES := [
    CoreRule("cordis"), CoreRule("cosmokit"), CoreRule("schemastery"), PluginRule("loader"), PluginRule("include"),
    PluginRule("group"), PluginRule("timer"), PluginRule("hmr"), PluginRule("logger-console")]

  function LongestFirst(): (Rule, Rule) -> bool {
    (left: Rule, right: Rule) => |right.from| <= |left.from|
  }

  /** Forward and reverse patterns: the table in either direction, longest searched name first. */
  function Patterns(reverse: bool): seq<Rule> {
    Sort(if reverse then FlipAll(RENAMES) else RENAMES, LongestFirst())
  }

  /** The lengths the sort compares. */
  predicate Lengths(t: seq<Rule>) {
    && |t| == 9
    && |t[8].from| > |t[4].from| > |t[3].from| > |t[5].from| == |t[6].from| > |t[7].from|
    && |t[7].from| > |t[2].from| > |t[1].from| > |t[0].from|
  }

  /** One insertion of the sort, from the end of the table. */
  lemma Land(t: seq<Rule>, k: nat, before: seq<Rule>, after: seq<Rule>)
    requires k < |t| && Sort(t[k + 1..], LongestFirst()) == before + after
    requires forall y | y in before :: |t[k].from| < |y.from|
    requires after != [] ==> |after[0].from| <= |t[k].from|
    ensures Sort(t[k..], LongestFirst()) == before + [t[k]] + after
  {
    assert t[k..][1..] == t[k + 1..];
    InsertLands(t[k], before, after, LongestFirst());
  }

  lemma SortPlugins(t: seq<Rule>)
    requires Lengths(t)
    ensures Sort(t[5..], LongestFirst()) == [t[8], t[5], t[6], t[7]]
  {
    assert t[9..] == [] && [] + [] + [t[8]] + [] == [t[8]];
    Land(t, 8, [], []);
    Land(t, 7, [t[8]], []);
    assert [t[8]] + [t[7]] + [] == [t[8]] + [t[7]];
    Land(t, 6, [t[8]], [t[7]]);
    assert [t[8]] + [t[6]] + [t[7]] == [t[8]] + [t[6], t[7]];
    Land(t, 5, [t[8]], [t[6], t[7]]);
  }

  lemma SortAllPlugins(t: seq<Rule>)
    requires Lengths(t)
    ensures Sort(t[3..], LongestFirst()) == [t[8], t[4], t[3], t[5], t[6], t[7]]
  {
    SortPlugins(t);
    assert [t[8], t[5], t[6], t[7]] == [t[8]] + [t[5], t[6], t[7]];
    Land(t, 4, [t[8]], [t[5], t[6], t[7]]);
    assert [t[8]] + [t[4]] + [t[5], t[6], t[7]] == [t[8], t[4]] + [t[5], t[6], t[7]];
    Land(t, 3, [t[8], t[4]], [t[5], t[6], t[7]]);
  }

  lemma SortNine(t: seq<Rule>)
    requires Lengths(t)
    ensures Sort(t, LongestFirst()) == [t[8], t[4], t[3], t[5], t[6], t[7]] + [t[2]] + [t[1]] + [t[0]]
  {
    var six := [t[8], t[4], t[3], t[5], t[6], t[7]];
    SortAllPlugins(t);
    assert six == six + [];
    Land(t, 2, six, []);
    var seven := six + [t[2]];
    assert seven + [] == seven;
    Land(t, 1, seven, []);
    var eight := seven + [t[1]];
    assert eight + [] == eight;
    Land(t, 0, eight, []);
    assert eight + [t[0]] + [] == eight + [t[0]] && t[0..] == t;
  }

  lemma TableLengths()
    ensures Lengths(RENAMES) && Lengths(FlipAll(RENAMES))
  {
    FlipNine(RENAMES);
  }

  lemma {:induction false} FlipNine(rules: seq<Rule>)
    ensures |FlipAll(rules)| == |rules| && forall i | 0 <= i < |rules| :: FlipAll(rules)[i] == Flip(rules[i])
  {
    if rules != [] { FlipNine(rules[1..]); }
  }

  lemma OrderOf(t: seq<Rule>, rules: seq<Rule>)
    requires Lengths(t) && |rules| == 9
    requires rules[0] == t[8] && rules[1] == t[4] && rules[2] == t[3] && rules[3] == t[5] && rules[4] == t[6]
    requires rules[5] == t[7] && rules[6] == t[2] && rules[7] == t[1] && rules[8] == t[0]
    ensures Sort(t, LongestFirst()) == rules
  {
    SortNine(t);
  }

  /** Sorting gives both directions the same order of names, ties in table order. */
  lemma OneOrderForBothDirections()
    ensures Patterns(false) == RULES && Patterns(true) == FlipAll(RULES)
  {
    TableLengths();
    OrderOf(RENAMES, RULES);
    FlipNine(RENAMES);
    FlipNine(RULES);
    OrderOf(FlipAll(RENAMES), FlipAll(RULES));
  }

  lemma PluginIsTold(suffix: string, from: string, to: string)
    requires from == "@cordisjs/plugin-" + suffix && to == "@deepseek-ai/cordis-plugin-" + suffix
    ensures PluginRule(suffix) == Rule(from, to)
  {
    Join("@deepseek-ai/", "cordis-plugin-", suffix);
    assert "@deepseek-ai/" + "cordis-plugin-" == "@deepseek-ai/cordis-plugin-";
  }

  /** The table, name by name. */
  lemma CoresAreTold()
    ensures RENAMES[..3] == [
              Rule("cordis", "@deepseek-ai/cordis"), Rule("cosmokit", "@deepseek-ai/cosmokit"),
              Rule("schemastery", "@deepseek-ai/schemastery")]
  {
    assert "@deepseek-ai/" + "cordis" == "@deepseek-ai/cordis" && "@deepseek-ai/" + "cosmokit" == "@deepseek-ai/cosmokit";
    assert "@deepseek-ai/" + "schemastery" == "@deepseek-ai/schemastery";
  }

  lemma PluginsAreTold()
    ensures RENAMES[3] == Rule("@cordisjs/plugin-loader", "@deepseek-ai/cordis-plugin-loader")
    ensures RENAMES[4] == Rule("@cordisjs/plugin-include", "@deepseek-ai/cordis-plugin-include")
    ensures RENAMES[5] == Rule("@cordisjs/plugin-group", "@deepseek-ai/cordis-plugin-group")
  {
    PluginIsTold("loader", "@cordisjs/plugin-loader", "@deepseek-ai/cordis-plugin-loader");
    PluginIsTold("include", "@cordisjs/plugin-include", "@deepseek-ai/cordis-plugin-include");
    PluginIsTold("group", "@cordisjs/plugin-group", "@deepseek-ai/cordis-plugin-group");
  }

  lemma LaterPluginsAreTold()
    ensures |RENAMES| == 9
    ensures RENAMES[6] == Rule("@cordisjs/plugin-timer", "@deepseek-ai/cordis-plugin-timer")
    ensures RENAMES[7] == Rule("@cordisjs/plugin-hmr", "@deepseek-ai/cordis-plugin-hmr")
    ensures RENAMES[8] == Rule("@cordisjs/plugin-logger-console", "@deepseek-ai/cordis-plugin-logger-console")
  {
    PluginIsTold("timer", "@cordisjs/plugin-timer", "@deepseek-ai/cordis-plugin-timer");
    PluginIsTold("hmr", "@cordisjs/plugin-hmr", "@deepseek-ai/cordis-plugin-hmr");
    PluginIsTold("logger-console", "@cordisjs/plugin-logger-console", "@deepseek-ai/cordis-plugin-logger-console");
  }
}
