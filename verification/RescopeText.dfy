/**
 * The vendor rename of scripts/rescope-vendor.ts on text: the two regular
 * expressions of a name, and how they rewrite one line.
 */
module RescopeText {
  import opened Prelude
  import opened Text

  predicate IsQuote(c: char) {
    c == '\'' || c == '"' || c == '`'
  }

  /** ECMAScript line terminators, where `^` and `$` match under the m flag. */
  predicate IsTerminator(c: char) {
    c == '\n' || c == '\r' || c == '\U{2028}' || c == '\U{2029}'
  }

  predicate NotTerminator(c: char) {
    !IsTerminator(c)
  }

  predicate NotDelimiter(c: char) {
    !IsDelimiter(c)
  }

  predicate IsBlank(c: char) {
    c == ' ' || c == '\t'
  }

  /** A character that splits a line into cells. */
  predicate IsDelimiter(c: char) {
    IsQuote(c) || IsTerminator(c)
  }

  /** A package name: no quotes, no white space and no comment sign. */
  ghost predicate IsName(name: string) {
    name != "" && forall i | 0 <= i < |name| :: !IsDelimiter(name[i]) && !IsSpace(name[i]) && name[i] != '#'
  }

  /** Neither name is the other or a parent path of it. */
  ghost predicate Apart(a: string, b: string) {
    a != b && !(a + "/" <= b) && !(b + "/" <= a)
  }

  /** One name's rewrite in one direction. */
  datatype Rule = Rule(from: string, to: string)

  ghost predicate IsRule(r: Rule) {
    IsName(r.from) && IsName(r.to) && Apart(r.from, r.to)
  }

  // ---- (['"`])NAME((?:/[^'"`\s]*)?)\1 ----

  predicate InSubpath(c: char) {
    !IsQuote(c) && !IsSpace(c)
  }

  /** The length of the token match at the start of s, or 0. */
  function TokenLength(s: string, name: string): (n: nat)
    ensures n <= |s|
    ensures n > 0 ==> n >= |name| + 2
  {
    if s == "" || !IsQuote(s[0]) || !(name <= s[1..]) then 0
    else
      var rest := s[1 + |name|..];
      var sub := if rest != "" && rest[0] == '/' then 1 + SkipWhile(rest[1..], InSubpath) else 0;
      if sub < |rest| && rest[sub] == s[0] then |name| + sub + 2 else 0
  }

  /** Global replacement: leftmost matches, each starting after the previous one. */
  function ReplaceTokens(s: string, r: Rule): string
    decreases |s|
  {
    if s == "" then ""
    else
      var n := TokenLength(s, r.from);
      if n == 0 then [s[0]] + ReplaceTokens(s[1..], r)
      else [s[0]] + r.to + s[1 + |r.from|..n] + ReplaceTokens(s[n..], r)
  }

  // ---- ^(\s*(?:-\s*)?name:[ \t]+)NAME([ \t]*(?:#.*)?)$ ----

  /** Where a key starts: after white space and an optional list dash. */
  function KeyStart(line: string): (j: nat)
    ensures j <= |line|
  {
    var i := SkipWhile(line, IsSpace);
    if i < |line| && line[i] == '-' then i + 1 + SkipWhile(line[i + 1..], IsSpace) else i
  }

  /** Where the value of a `name:` key at j starts. */
  function ValueOf(line: string, j: nat): (p: Option<nat>)
    requires j <= |line|
    ensures p.Some? ==> j + 5 < p.value <= |line|
  {
    if !("name:" <= line[j..]) then None
    else
      var blanks := SkipWhile(line[j + 5..], IsBlank);
      if blanks == 0 then None else Some(j + 5 + blanks)
  }

  /** Where the value of a leading `name:` key starts. */
  function ValueStart(line: string): (p: Option<nat>)
    ensures p.Some? ==> p.value <= |line|
  {
    ValueOf(line, KeyStart(line))
  }

  /** Only blanks, possibly followed by a comment; `last` says whether the line ends here. */
  predicate OnlyComment(s: string, last: bool) {
    var n := SkipWhile(s, IsBlank);
    if n == |s| then last else s[n] == '#'
  }

  predicate NamedAt(line: string, p: nat, last: bool, name: string)
    requires p <= |line|
  {
    name <= line[p..] && OnlyComment(line[p + |name|..], last)
  }

  predicate IsYamlName(line: string, last: bool, name: string) {
    ValueStart(line).Some? && NamedAt(line, ValueStart(line).value, last, name)
  }

  /**
   * Rewrite the name on one terminator-delimited line. White space before
   * `name:` may reach back over earlier terminators, but such a match rewrites
   * the same name as the one that starts on this line.
   */
  function ReplaceYamlName(line: string, last: bool, r: Rule): string {
    if IsYamlName(line, last, r.from) then Substitute(line, ValueStart(line).value, r) else line
  }

  function Substitute(line: string, p: nat, r: Rule): string
    requires p <= |line| && r.from <= line[p..]
  {
    line[..p] + r.to + line[p + |r.from|..]
  }

  /** Apply a rewrite to each maximal stretch of a class of characters between single other characters. */
  function MapLines(s: string, inLine: char -> bool, f: string -> string): string
    decreases |s|
  {
    var e := SkipWhile(s, inLine);
    if e == |s| then f(s) else f(s[..e]) + [s[e]] + MapLines(s[e + 1..], inLine, f)
  }

  function YamlLine(r: Rule): string -> string {
    (line: string) => ReplaceYamlName(line, true, r)
  }

  function ReplaceYamlNames(s: string, r: Rule): string {
    MapLines(s, NotTerminator, YamlLine(r))
  }

  /** One name after the other, each with its token rule and its YAML rule. */
  function RewriteLine(line: string, rules: seq<Rule>): string
    decreases |rules|
  {
    if rules == [] then line
    else RewriteLine(ReplaceYamlNames(ReplaceTokens(line, rules[0]), rules[0]), rules[1..])
  }

  /** A Markdown fence line: white space, then three backticks. */
  predicate IsFence(line: string) {
    "```" <= line[SkipWhile(line, IsSpace)..]
  }
}
