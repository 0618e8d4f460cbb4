/** Text as the scripts handle it: character classes, prefixes and lines. */
module Text {
  lemma Join(a: string, b: string, c: string)
    ensures a + b + c == a + (b + c)
  {
  }

  /** The class `\s` of ECMAScript. */
  predicate IsSpace(c: char) {
    || c == ' ' || '\t' <= c <= '\r' || c == '\U{A0}' || c == '\U{1680}' || '\U{2000}' <= c <= '\U{200A}'
    || c == '\U{2028}' || c == '\U{2029}' || c == '\U{202F}' || c == '\U{205F}' || c == '\U{3000}' || c == '\U{FEFF}'
  }

  /** The length of the longest prefix in a class of characters. */
  function SkipWhile(s: string, p: char -> bool): (n: nat)
    ensures n <= |s|
    ensures forall k | 0 <= k < n :: p(s[k])
    ensures n < |s| ==> !p(s[n])
  {
    if s == [] || !p(s[0]) then 0 else 1 + SkipWhile(s[1..], p)
  }

  lemma SkipWhileIs(s: string, p: char -> bool, n: nat)
    requires n <= |s| && (forall k | 0 <= k < n :: p(s[k])) && (n < |s| ==> !p(s[n]))
    ensures SkipWhile(s, p) == n
  {
    var m := SkipWhile(s, p);
    if m < n { assert false; }
    if n < m { assert false; }
  }

  function Not(stop: char): char -> bool {
    (c: char) => c != stop
  }

  /** `split` at a character. */
  function Split(text: string, stop: char): (pieces: seq<string>)
    ensures pieces != [] && forall i | 0 <= i < |pieces| :: stop !in pieces[i]
    decreases |text|
  {
    var e := SkipWhile(text, Not(stop));
    if e == |text| then [text] else [text[..e]] + Split(text[e + 1..], stop)
  }

  /** `join` with a character. */
  function JoinWith(pieces: seq<string>, stop: char): string {
    if pieces == [] then "" else if |pieces| == 1 then pieces[0] else pieces[0] + [stop] + JoinWith(pieces[1..], stop)
  }

  lemma {:induction false} JoinSplit(text: string, stop: char)
    ensures JoinWith(Split(text, stop), stop) == text
    decreases |text|
  {
    var e := SkipWhile(text, Not(stop));
    if e < |text| {
      var piece, rest := text[..e], text[e + 1..];
      JoinSplit(rest, stop);
      JoinCons(piece, Split(rest, stop), stop);
      assert text[e] == stop;
      assert text[e..] == [stop] + rest && text == piece + text[e..];
      Join(piece, [stop], rest);
    }
  }

  lemma JoinCons(piece: string, rest: seq<string>, stop: char)
    requires rest != []
    ensures JoinWith([piece] + rest, stop) == piece + [stop] + JoinWith(rest, stop)
  {
    assert ([piece] + rest)[1..] == rest;
  }

  lemma {:induction false} SplitJoin(pieces: seq<string>, stop: char)
    requires pieces != [] && forall i | 0 <= i < |pieces| :: stop !in pieces[i]
    ensures Split(JoinWith(pieces, stop), stop) == pieces
  {
    var text := JoinWith(pieces, stop);
    if |pieces| == 1 {
      SkipWhileIs(text, Not(stop), |text|);
    } else {
      SkipWhileIs(text, Not(stop), |pieces[0]|);
      assert text[..|pieces[0]|] == pieces[0] && text[|pieces[0]| + 1..] == JoinWith(pieces[1..], stop);
      SplitJoin(pieces[1..], stop);
    }
  }

  function SplitLines(text: string): (lines: seq<string>)
    ensures lines != [] && forall i | 0 <= i < |lines| :: '\n' !in lines[i]
  {
    Split(text, '\n')
  }

  function JoinLines(lines: seq<string>): string {
    JoinWith(lines, '\n')
  }
}
