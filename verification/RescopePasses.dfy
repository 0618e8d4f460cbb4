/** Passes of many names over one line: undoing them, and repeating them. */
module RescopePasses {
  import opened Prelude
  import opened RescopeText
  import opened RescopeCells
  import opened RescopeLaws

  // ---- Two rewrites of different names commute ----

  lemma NoHitOnOtherForm(a: Op, b: Op, t: Line, open: Option<char>, first: bool)
    requires Independent(a, b) && Form(a, t.content)
    ensures !Hit(b, t, open, first)
  {
    FormsExclude(a, b, t.content);
    if Hit(b, t, open, first) { HitMatches(b, t, open, first); }
  }

  /** The first cell after a hit of a, whatever b then does there. */
  lemma HitKeepsForm(a: Op, t: Line, open: Option<char>, first: bool)
    requires IsOp(a) && Hit(a, t, open, first)
    ensures Form(a, t.content) && Form(a, NewContent(a, t, open, first)) && NewContent(a, t, open, first) != t.content
  {
    HitMatches(a, t, open, first);
    ImageFacts(a, t.content);
  }

  lemma {:induction false} Commute(a: Op, b: Op, t: Line, openA: Option<char>, openB: Option<char>, first: bool)
    requires Independent(a, b) && Independent(b, a)
    ensures Run(a, Run(b, t, openB, first), openA, first) == Run(b, Run(a, t, openA, first), openB, first)
  {
    var afterA, afterB := Run(a, t, openA, first), Run(b, t, openB, first);
    if Hit(a, t, openA, first) {
      HitKeepsForm(a, t, openA, first);
      NoHitOnOtherForm(a, b, t, openB, first);
      NoHitOnOtherForm(a, b, afterA, openB, first);
    } else if Hit(b, t, openB, first) {
      HitKeepsForm(b, t, openB, first);
      NoHitOnOtherForm(b, a, t, openA, first);
      NoHitOnOtherForm(b, a, afterB, openA, first);
    }
    if t.Cell? {
      Commute(a, b, t.rest, NextOpen(a, t, openA, first), NextOpen(b, t, openB, first), IsTerminator(t.delimiter));
    }
  }

  // ---- Undoing one rewrite ----

  /**
   * Nothing in the target form is met by a scan that tries both spellings: a
   * match of either spelling uses up its quotes.
   */
  predicate NoStray(op: Op, t: Line, open: Option<char>, first: bool) {
    && (Hit(op, t, open, first) || !Hit(Inverse(op), t, open, first))
    && (t.Cell? ==> NoStray(op, t.rest, NextOpen(op, t, open, first), IsTerminator(t.delimiter)))
  }

  lemma HitComesBack(op: Op, t: Line, open: Option<char>, first: bool)
    requires IsOp(op) && Hit(op, t, open, first)
    ensures var u := Run(op, t, open, first);
            && Hit(Inverse(op), u, open, first)
            && NewContent(Inverse(op), u, open, first) == t.content
  {
    HitMatches(op, t, open, first);
    ImageFacts(op, t.content);
    if op.Yaml? {
      YamlImage(op.rule, t.content, t.End? || IsTerminator(t.delimiter));
    }
  }

  /** Rewriting and rewriting back restores the line exactly when it held no stray target. */
  lemma {:induction false} UndoOne(op: Op, t: Line, open: Option<char>, first: bool)
    requires IsOp(op)
    ensures Run(Inverse(op), Run(op, t, open, first), open, first) == t <==> NoStray(op, t, open, first)
  {
    var u := Run(op, t, open, first);
    if Hit(op, t, open, first) {
      HitComesBack(op, t, open, first);
      if t.Cell? { UndoOne(op, t.rest, NextOpen(op, t, open, first), IsTerminator(t.delimiter)); }
    } else if Hit(Inverse(op), t, open, first) {
      HitKeepsForm(Inverse(op), u, open, first);
    } else {
      if t.Cell? { UndoOne(op, t.rest, NextOpen(op, t, open, first), IsTerminator(t.delimiter)); }
    }
  }

  /** If the reverse rewrite finds nothing at all, then in particular nothing is stray. */
  lemma {:induction false} NothingToReverse(op: Op, t: Line, open: Option<char>, reverseOpen: Option<char>, first: bool)
    requires IsOp(op) && (open.None? || open == reverseOpen)
    requires Run(Inverse(op), t, reverseOpen, first) == t
    ensures NoStray(op, t, open, first)
  {
    if Hit(Inverse(op), t, reverseOpen, first) {
      HitKeepsForm(Inverse(op), t, reverseOpen, first);
      assert false;
    }
    if t.Cell? {
      NothingToReverse(op, t.rest, NextOpen(op, t, open, first), Opens(t.delimiter), IsTerminator(t.delimiter));
    }
  }

  // ---- Repeating one rewrite ----

  /** Two neighbouring cells that are both tokens of the name, sharing the quote between them. */
  predicate SharesQuote(op: Op, t: Line, quote: Option<char>) {
    t.Cell? && (
      || (Hit(op, t, quote, false) && op.Tokens? && Hit(op, t.rest, Opens(t.delimiter), false))
      || SharesQuote(op, t.rest, Opens(t.delimiter)))
  }

  lemma NoHitTwice(op: Op, t: Line, open: Option<char>, quote: Option<char>, first: bool)
    requires IsOp(op) && Hit(op, t, open, first)
    ensures !Hit(op, Run(op, t, open, first), quote, first)
  {
    var u := Run(op, t, open, first);
    HitMatches(op, t, open, first);
    ImageFacts(op, t.content);
    OneSide(Inverse(op), u.content);
    if Hit(op, u, quote, first) { HitMatches(op, u, quote, first); }
  }

  /**
   * `quote` is the quote before the cell and `open` is what the first pass has
   * left of it. The second pass is idle exactly when no token follows a match
   * through the quote they share.
   */
  lemma {:induction false} RepeatOne(op: Op, t: Line, open: Option<char>, quote: Option<char>, first: bool)
    requires IsOp(op) && (open == quote || (op.Tokens? && open.None?))
    ensures Run(op, Run(op, t, open, first), quote, first) == Run(op, t, open, first)
            <==> !(open != quote && Hit(op, t, quote, first)) && !SharesQuote(op, t, quote)
  {
    var u := Run(op, t, open, first);
    if Hit(op, t, open, first) {
      NoHitTwice(op, t, open, quote, first);
    } else if Hit(op, t, quote, first) {
      HitKeepsForm(op, u, quote, first);
    }
    if t.Cell? {
      RepeatOne(op, t.rest, NextOpen(op, t, open, first), Opens(t.delimiter), IsTerminator(t.delimiter));
    }
  }

  // ---- What a rewrite leaves alone ----

  /** The second line keeps every content that has op's form. */
  ghost predicate Keeps(op: Op, t: Line, u: Line) {
    && t.Cell? == u.Cell?
    && (Form(op, t.content) ==> u.content == t.content)
    && (t.Cell? ==> t.delimiter == u.delimiter && Keeps(op, t.rest, u.rest))
  }

  /** Contents differ only where both have op's form. */
  ghost predicate Differs(op: Op, t: Line, u: Line) {
    && t.Cell? == u.Cell?
    && (t.content != u.content ==> Form(op, t.content) && Form(op, u.content))
    && (t.Cell? ==> t.delimiter == u.delimiter && Differs(op, t.rest, u.rest))
  }

  lemma {:induction false} RunKeeps(a: Op, b: Op, t: Line, open: Option<char>, first: bool)
    requires Independent(a, b)
    ensures Keeps(a, t, Run(b, t, open, first))
  {
    if Form(a, t.content) { NoHitOnOtherForm(a, b, t, open, first); }
    if t.Cell? { RunKeeps(a, b, t.rest, NextOpen(b, t, open, first), IsTerminator(t.delimiter)); }
  }

  lemma {:induction false} RunDiffers(op: Op, t: Line, open: Option<char>, first: bool)
    requires IsOp(op)
    ensures Differs(op, t, Run(op, t, open, first))
  {
    if Hit(op, t, open, first) { HitKeepsForm(op, t, open, first); }
    if t.Cell? { RunDiffers(op, t.rest, NextOpen(op, t, open, first), IsTerminator(t.delimiter)); }
  }

  lemma {:induction false} KeepsTransitive(op: Op, t: Line, u: Line, v: Line)
    requires Keeps(op, t, u) && Keeps(op, u, v)
    ensures Keeps(op, t, v)
  {
    if t.Cell? { KeepsTransitive(op, t.rest, u.rest, v.rest); }
  }

  lemma {:induction false} DiffersTransitive(op: Op, t: Line, u: Line, v: Line)
    requires Differs(op, t, u) && Differs(op, u, v)
    ensures Differs(op, t, v)
  {
    if t.Cell? { DiffersTransitive(op, t.rest, u.rest, v.rest); }
  }

  /** Two lines that differ only in op's forms are told apart by what keeps those forms. */
  lemma {:induction false} KeptDifference(op: Op, t: Line, u: Line, end: Line)
    requires Differs(op, t, u) && Keeps(op, t, end) && Keeps(op, u, end)
    ensures t == u
  {
    if t.Cell? { KeptDifference(op, t.rest, u.rest, end.rest); }
  }

  // ---- Sequences of rewrites ----

  function ApplyAll(ops: seq<Op>, t: Line): Line
    decreases |ops|
  {
    if ops == [] then t else ApplyAll(ops[1..], Apply(ops[0], t))
  }

  function Inverses(ops: seq<Op>): (r: seq<Op>)
    ensures |r| == |ops| && forall i | 0 <= i < |ops| :: r[i] == Inverse(ops[i])
  {
    if ops == [] then [] else [Inverse(ops[0])] + Inverses(ops[1..])
  }

  /** The rewrites of different names, or of different kinds. */
  ghost predicate AllIndependent(ops: seq<Op>) {
    && (forall i | 0 <= i < |ops| :: IsOp(ops[i]))
    && (forall i, j | 0 <= i < |ops| && 0 <= j < |ops| && i != j :: Independent(ops[i], ops[j]))
  }

  ghost predicate IndependentOf(op: Op, ops: seq<Op>) {
    IsOp(op) && forall i | 0 <= i < |ops| :: Independent(op, ops[i]) && Independent(ops[i], op)
  }

  lemma Rest(ops: seq<Op>)
    requires ops != [] && AllIndependent(ops)
    ensures AllIndependent(ops[1..]) && IndependentOf(ops[0], ops[1..])
    ensures IndependentOf(Inverse(ops[0]), ops[1..]) && IndependentOf(ops[0], Inverses(ops[1..]))
  {
    var rest := ops[1..];
    forall i | 0 <= i < |rest|
      ensures Independent(ops[0], rest[i]) && Independent(rest[i], ops[0])
      ensures Independent(Inverse(ops[0]), rest[i]) && Independent(rest[i], Inverse(ops[0]))
      ensures Independent(ops[0], Inverse(rest[i])) && Independent(Inverse(rest[i]), ops[0])
    {
      assert rest[i] == ops[i + 1];
    }
  }

  lemma {:induction false} CommuteAll(op: Op, ops: seq<Op>, t: Line)
    requires IndependentOf(op, ops)
    ensures ApplyAll(ops, Apply(op, t)) == Apply(op, ApplyAll(ops, t))
    decreases |ops|
  {
    if ops != [] {
      Commute(op, ops[0], t, None, None, true);
      CommuteAll(op, ops[1..], Apply(ops[0], t));
    }
  }

  lemma {:induction false} AllKeep(op: Op, ops: seq<Op>, t: Line)
    requires IndependentOf(op, ops)
    ensures Keeps(op, t, ApplyAll(ops, t))
    decreases |ops|
  {
    if ops == [] {
      KeepsSelf(op, t);
    } else {
      RunKeeps(op, ops[0], t, None, true);
      AllKeep(op, ops[1..], Apply(ops[0], t));
      KeepsTransitive(op, t, Apply(ops[0], t), ApplyAll(ops, t));
    }
  }

  lemma {:induction false} KeepsSelf(op: Op, t: Line)
    ensures Keeps(op, t, t)
  {
    if t.Cell? { KeepsSelf(op, t.rest); }
  }

  /** The names pass forward and then backward, undone name by name. */
  lemma UndoStep(ops: seq<Op>, t: Line)
    requires ops != [] && AllIndependent(ops)
    ensures ApplyAll(Inverses(ops), ApplyAll(ops, t))
            == ApplyAll(Inverses(ops[1..]), ApplyAll(ops[1..], Apply(Inverse(ops[0]), Apply(ops[0], t))))
  {
    Rest(ops);
    CommuteAll(Inverse(ops[0]), ops[1..], Apply(ops[0], t));
    assert Inverses(ops)[1..] == Inverses(ops[1..]);
  }

  /** Going forward and back restores the line exactly when no rewrite meets a stray target. */
  lemma {:induction false} UndoAll(ops: seq<Op>, t: Line)
    requires AllIndependent(ops)
    ensures ApplyAll(Inverses(ops), ApplyAll(ops, t)) == t <==> forall i | 0 <= i < |ops| :: NoStray(ops[i], t, None, true)
    decreases |ops|
  {
    if ops != [] {
      var op, rest := ops[0], ops[1..];
      var back := Apply(Inverse(op), Apply(op, t));
      Rest(ops);
      UndoStep(ops, t);
      UndoOne(op, t, None, true);
      if NoStray(op, t, None, true) {
        UndoAll(rest, t);
        assert forall i | 0 <= i < |rest| :: rest[i] == ops[i + 1];
      } else {
        var end := ApplyAll(Inverses(rest), ApplyAll(rest, back));
        KeptThroughout(op, rest, back);
        if end == t {
          RunDiffers(op, t, None, true);
          RunDiffersBack(op, Apply(op, t));
          DiffersTransitive(op, t, Apply(op, t), back);
          KeepsSelf(op, t);
          KeptDifference(op, t, back, end);
        }
      }
    }
  }

  lemma RunDiffersBack(op: Op, t: Line)
    requires IsOp(op)
    ensures Differs(op, t, Apply(Inverse(op), t))
  {
    RunDiffers(Inverse(op), t, None, true);
    SameForms(op, t, Apply(Inverse(op), t));
  }

  lemma {:induction false} SameForms(op: Op, t: Line, u: Line)
    requires Differs(Inverse(op), t, u)
    ensures Differs(op, t, u)
  {
    if t.Cell? { SameForms(op, t.rest, u.rest); }
  }

  lemma KeptThroughout(op: Op, rest: seq<Op>, t: Line)
    requires IndependentOf(op, rest) && IndependentOf(op, Inverses(rest))
    ensures Keeps(op, t, ApplyAll(Inverses(rest), ApplyAll(rest, t)))
  {
    AllKeep(op, rest, t);
    AllKeep(op, Inverses(rest), ApplyAll(rest, t));
    KeepsTransitive(op, t, ApplyAll(rest, t), ApplyAll(Inverses(rest), ApplyAll(rest, t)));
  }

  // ---- A second forward pass ----

  lemma {:induction false} SharingIsStable(a: Op, b: Op, t: Line, open: Option<char>, first: bool, quote: Option<char>)
    requires Independent(a, b)
    ensures SharesQuote(a, Run(b, t, open, first), quote) == SharesQuote(a, t, quote)
  {
    if t.Cell? {
      var u := Run(b, t, open, first);
      HitIsStable(a, b, t, open, first, quote);
      var next := NextOpen(b, t, open, first);
      HitIsStable(a, b, t.rest, next, IsTerminator(t.delimiter), Opens(t.delimiter));
      SharingIsStable(a, b, t.rest, next, IsTerminator(t.delimiter), Opens(t.delimiter));
    }
  }

  lemma HitIsStable(a: Op, b: Op, t: Line, open: Option<char>, first: bool, quote: Option<char>)
    requires Independent(a, b)
    ensures Hit(a, Run(b, t, open, first), quote, false) == Hit(a, t, quote, false)
  {
    if Hit(b, t, open, first) {
      HitKeepsForm(b, t, open, first);
      FormsExclude(b, a, t.content);
      FormsExclude(b, a, NewContent(b, t, open, first));
    }
  }

  lemma RepeatStep(ops: seq<Op>, t: Line)
    requires ops != [] && AllIndependent(ops)
    ensures ApplyAll(ops, ApplyAll(ops, t)) == ApplyAll(ops[1..], ApplyAll(ops[1..], Apply(ops[0], Apply(ops[0], t))))
  {
    Rest(ops);
    CommuteAll(ops[0], ops[1..], Apply(ops[0], t));
  }

  /** A second pass over the line is idle exactly when no name has two tokens sharing a quote. */
  lemma {:induction false} RepeatAll(ops: seq<Op>, t: Line)
    requires AllIndependent(ops)
    ensures ApplyAll(ops, ApplyAll(ops, t)) == ApplyAll(ops, t) <==> forall i | 0 <= i < |ops| :: !SharesQuote(ops[i], t, None)
    decreases |ops|
  {
    if ops != [] {
      var op, rest := ops[0], ops[1..];
      var once := Apply(op, t);
      var twice := Apply(op, once);
      Rest(ops);
      RepeatStep(ops, t);
      RepeatOne(op, t, None, None, true);
      forall i | 0 <= i < |rest| ensures SharesQuote(rest[i], once, None) == SharesQuote(ops[i + 1], t, None) {
        assert rest[i] == ops[i + 1];
        SharingIsStable(rest[i], op, t, None, true, None);
      }
      if SharesQuote(op, t, None) {
        var end := ApplyAll(rest, once);
        AllKeep(op, rest, once);
        AllKeep(op, rest, twice);
        AllKeep(op, rest, ApplyAll(rest, twice));
        KeepsTransitive(op, twice, ApplyAll(rest, twice), ApplyAll(rest, ApplyAll(rest, twice)));
        RunDiffers(op, once, None, true);
        if ApplyAll(rest, ApplyAll(rest, twice)) == end {
          KeptDifference(op, once, twice, end);
        }
      } else {
        RepeatAll(rest, once);
        assert forall i | 0 <= i < |rest| :: SharesQuote(rest[i], once, None) == SharesQuote(ops[i + 1], t, None);
      }
    }
  }
}
