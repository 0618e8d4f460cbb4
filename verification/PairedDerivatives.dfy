/**
 * `partitionPairedMarkdownDerivatives` of scripts/paired-markdown-derivatives.ts:
 * code blocks of translated pages are dropped when their originals are checked.
 */
module PairedDerivatives {
  import opened Prelude

  const ZH_SUFFIX := ".zh.md"
  const SUFFIX := ".md"

  /** `a.zh.md` is a translation of `a.md`. */
  function UnsuffixedSibling(doc: string): Option<string> {
    if |doc| >= |ZH_SUFFIX| && doc[|doc| - |ZH_SUFFIX|..] == ZH_SUFFIX
    then Some(doc[..|doc| - |ZH_SUFFIX|] + SUFFIX)
    else None
  }

  /** A block: its page, its fingerprint, and whatever else identifies it. */
  datatype Block<T> = Block(doc: string, fingerprint: string, content: T)

  function InDoc<T>(doc: string): Block<T> -> bool {
    (b: Block<T>) => b.doc == doc
  }

  /** The blocks of one page, in scan order. */
  function Group<T>(blocks: seq<Block<T>>, doc: string): seq<Block<T>> {
    Filter(blocks, InDoc(doc))
  }

  predicate SameFingerprints<T>(a: seq<Block<T>>, b: seq<Block<T>>) {
    |a| == |b| && forall i | 0 <= i < |a| :: a[i].fingerprint == b[i].fingerprint
  }

  /** A page whose blocks repeat those of its unsuffixed sibling. */
  predicate IsDerivative<T>(blocks: seq<Block<T>>, doc: string) {
    var sibling := UnsuffixedSibling(doc);
    sibling.Some? && Group(blocks, sibling.value) != [] && SameFingerprints(Group(blocks, doc), Group(blocks, sibling.value))
  }

  function DerivativeTest<T>(blocks: seq<Block<T>>): Block<T> -> bool {
    (b: Block<T>) => IsDerivative(blocks, b.doc)
  }

  function PrimaryTest<T>(blocks: seq<Block<T>>): Block<T> -> bool {
    (b: Block<T>) => !IsDerivative(blocks, b.doc)
  }

  datatype Partition<T> = Partition(primary: seq<Block<T>>, derivatives: seq<Block<T>>)

  function PartitionOf<T>(blocks: seq<Block<T>>): Partition<T> {
    Partition(Filter(blocks, PrimaryTest(blocks)), Filter(blocks, DerivativeTest(blocks)))
  }

  // ---- Nothing is lost ----

  /** Every block is in exactly one part, as often as it was scanned. */
  lemma PartitionKeepsBlocks<T>(blocks: seq<Block<T>>)
    ensures multiset(PartitionOf(blocks).primary) + multiset(PartitionOf(blocks).derivatives) == multiset(blocks)
    ensures forall b :: !(b in PartitionOf(blocks).primary && b in PartitionOf(blocks).derivatives)
  {
    FilterSplits(blocks, PrimaryTest(blocks), DerivativeTest(blocks));
  }

  lemma {:induction false} FilterSplits<T>(s: seq<T>, p: T -> bool, q: T -> bool)
    requires forall x | x in s :: p(x) != q(x)
    ensures multiset(Filter(s, p)) + multiset(Filter(s, q)) == multiset(s)
  {
    if s != [] {
      FilterSplits(s[1..], p, q);
      assert s == [s[0]] + s[1..];
    }
  }

  lemma {:induction false} FilterOfFilter<T>(s: seq<T>, p: T -> bool, q: T -> bool)
    requires forall x | x in s && q(x) :: p(x)
    ensures Filter(Filter(s, p), q) == Filter(s, q)
  {
    if s != [] {
      FilterOfFilter(s[1..], p, q);
      if p(s[0]) { assert ([s[0]] + Filter(s[1..], p))[1..] == Filter(s[1..], p); }
    }
  }

  /** Both parts keep scan order: a page that stays primary keeps all its blocks, in order, among the primary ones. */
  lemma PartitionIsStable<T>(blocks: seq<Block<T>>, doc: string)
    ensures Group(PartitionOf(blocks).primary, doc) == if IsDerivative(blocks, doc) then [] else Group(blocks, doc)
    ensures Group(PartitionOf(blocks).derivatives, doc) == if IsDerivative(blocks, doc) then Group(blocks, doc) else []
  {
    var primary, derivatives := PartitionOf(blocks).primary, PartitionOf(blocks).derivatives;
    if IsDerivative(blocks, doc) {
      FilterOfFilter(blocks, DerivativeTest(blocks), InDoc(doc));
      NothingPasses(primary, InDoc(doc));
    } else {
      FilterOfFilter(blocks, PrimaryTest(blocks), InDoc(doc));
      NothingPasses(derivatives, InDoc(doc));
    }
  }

  lemma NothingPasses<T>(s: seq<T>, p: T -> bool)
    requires forall x | x in s :: !p(x)
    ensures Filter(s, p) == []
  {
    if Filter(s, p) != [] { assert Filter(s, p)[0] in Filter(s, p); }
  }

  lemma SiblingIsShorter(doc: string)
    requires UnsuffixedSibling(doc).Some?
    ensures |UnsuffixedSibling(doc).value| == |doc| - 3
  {
  }

  /** Pages reached by dropping `.zh` again and again, the page itself included. */
  predicate OnSiblingChain(doc: string, original: string)
    decreases |doc|
  {
    doc == original
    || (UnsuffixedSibling(doc).Some? && (SiblingIsShorter(doc); OnSiblingChain(UnsuffixedSibling(doc).value, original)))
  }

  /**
   * Where the checks of a page happen: following siblings from a page with
   * blocks ends at a primary page whose blocks carry the same fingerprints.
   */
  lemma {:induction false} OriginalIsPrimary<T>(blocks: seq<Block<T>>, doc: string) returns (original: string)
    requires Group(blocks, doc) != []
    ensures OnSiblingChain(doc, original) && !IsDerivative(blocks, original)
    ensures Group(PartitionOf(blocks).primary, original) == Group(blocks, original)
    ensures SameFingerprints(Group(blocks, doc), Group(blocks, original))
    ensures !IsDerivative(blocks, doc) ==> original == doc
    decreases |doc|
  {
    PartitionIsStable(blocks, doc);
    original := doc;
    if IsDerivative(blocks, doc) {
      SiblingIsShorter(doc);
      original := OriginalIsPrimary(blocks, UnsuffixedSibling(doc).value);
    }
  }

  /** Dropping the derivatives loses no check: a primary block with the same fingerprint stands at the same index. */
  lemma EveryDerivativeIsChecked<T>(blocks: seq<Block<T>>, doc: string, i: nat) returns (original: string)
    requires i < |Group(PartitionOf(blocks).derivatives, doc)|
    ensures OnSiblingChain(doc, original)
    ensures i < |Group(PartitionOf(blocks).primary, original)|
    ensures Group(PartitionOf(blocks).primary, original)[i] in PartitionOf(blocks).primary
    ensures Group(PartitionOf(blocks).primary, original)[i].fingerprint == Group(PartitionOf(blocks).derivatives, doc)[i].fingerprint
  {
    PartitionIsStable(blocks, doc);
    original := OriginalIsPrimary(blocks, doc);
    var group := Group(PartitionOf(blocks).primary, original);
    assert group[i] in group;
  }

  // ---- The loops ----

  /** The table filled in the first loop. */
  ghost predicate Grouped<T>(byDoc: map<string, seq<Block<T>>>, blocks: seq<Block<T>>) {
    forall doc :: (if doc in byDoc then byDoc[doc] else []) == Group(blocks, doc) && (doc in byDoc ==> byDoc[doc] != [])
  }

  method GroupByDoc<T>(blocks: seq<Block<T>>) returns (byDoc: map<string, seq<Block<T>>>)
    ensures Grouped(byDoc, blocks)
  {
    byDoc := map[];
    for i := 0 to |blocks|
      invariant Grouped(byDoc, blocks[..i])
    {
      var block := blocks[i];
      assert blocks[..i + 1] == blocks[..i] + [block];
      forall doc ensures Group(blocks[..i + 1], doc) == if block.doc == doc then Group(blocks[..i], doc) + [block] else Group(blocks[..i], doc) {
        FilterAppend(blocks[..i], block, InDoc(doc));
      }
      byDoc := byDoc[block.doc := (if block.doc in byDoc then byDoc[block.doc] else []) + [block]];
    }
    assert blocks[..|blocks|] == blocks;
  }

  method Derives<T>(candidates: seq<Block<T>>, originals: seq<Block<T>>) returns (r: bool)
    ensures r == SameFingerprints(candidates, originals)
  {
    if |originals| != |candidates| {
      return false;
    }
    for index := 0 to |candidates|
      invariant forall i | 0 <= i < index :: candidates[i].fingerprint == originals[i].fingerprint
    {
      if candidates[index].fingerprint != originals[index].fingerprint {
        return false;
      }
    }
    r := true;
  }

  method DerivativeDocs<T>(ghost blocks: seq<Block<T>>, byDoc: map<string, seq<Block<T>>>) returns (docs: set<string>)
    requires Grouped(byDoc, blocks)
    ensures forall doc :: doc in docs <==> doc in byDoc && IsDerivative(blocks, doc)
  {
    docs := {};
    var left := byDoc.Keys;
    while left != {}
      invariant left <= byDoc.Keys
      invariant forall doc :: doc in docs <==> doc in byDoc && doc !in left && IsDerivative(blocks, doc)
      decreases |left|
    {
      var doc :| doc in left;
      left := left - {doc};
      var sibling := UnsuffixedSibling(doc);
      if sibling.Some? && sibling.value in byDoc {
        var same := Derives(byDoc[doc], byDoc[sibling.value]);
        if same {
          docs := docs + {doc};
        }
      }
    }
  }

  lemma TestsAgree<T>(blocks: seq<Block<T>>, byDoc: map<string, seq<Block<T>>>, docs: set<string>)
    requires Grouped(byDoc, blocks)
    requires forall doc :: doc in docs <==> doc in byDoc && IsDerivative(blocks, doc)
    ensures forall b | b in blocks :: (b.doc in docs <==> DerivativeTest(blocks)(b)) && (PrimaryTest(blocks)(b) <==> !DerivativeTest(blocks)(b))
  {
    forall b | b in blocks ensures b.doc in byDoc {
      assert b in Group(blocks, b.doc);
    }
  }

  /** `partitionPairedMarkdownDerivatives`. */
  method PartitionPairedMarkdownDerivatives<T>(blocks: seq<Block<T>>) returns (parts: Partition<T>)
    ensures parts == PartitionOf(blocks)
  {
    var byDoc := GroupByDoc(blocks);
    var derivativeDocs := DerivativeDocs(blocks, byDoc);
    ghost var kept, dropped := PrimaryTest(blocks), DerivativeTest(blocks);
    TestsAgree(blocks, byDoc, derivativeDocs);
    var primary, derivatives := [], [];
    for i := 0 to |blocks|
      invariant primary == Filter(blocks[..i], kept) && derivatives == Filter(blocks[..i], dropped)
    {
      var block := blocks[i];
      assert block in blocks;
      FilterAppend(blocks[..i], block, kept);
      FilterAppend(blocks[..i], block, dropped);
      TakeOneMore(blocks, i);
      if block.doc in derivativeDocs {
        derivatives := derivatives + [block];
      } else {
        primary := primary + [block];
      }
    }
    assert blocks[..|blocks|] == blocks;
    parts := Partition(primary, derivatives);
  }

  // ---- What the partition is ----

  /** The fingerprints of the blocks of one page, in scan order. */
  function Prints<T>(blocks: seq<Block<T>>, doc: string): seq<string> {
    if blocks == [] then []
    else (if blocks[0].doc == doc then [blocks[0].fingerprint] else []) + Prints(blocks[1..], doc)
  }

  /** A page `base.zh.md` whose fingerprints are those of a page `base.md` that has blocks. */
  ghost predicate Repeats<T>(blocks: seq<Block<T>>, doc: string, base: string) {
    doc == base + ".zh.md" && Prints(blocks, doc) == Prints(blocks, base + ".md") != []
  }

  ghost predicate Translated<T>(blocks: seq<Block<T>>, doc: string) {
    exists base :: Repeats(blocks, doc, base)
  }

  ghost function TranslatedTest<T>(blocks: seq<Block<T>>): Block<T> -> bool {
    (b: Block<T>) => Translated(blocks, b.doc)
  }

  ghost function OtherTest<T>(blocks: seq<Block<T>>): Block<T> -> bool {
    (b: Block<T>) => !Translated(blocks, b.doc)
  }

  lemma {:induction false} PrintsAreGrouped<T>(blocks: seq<Block<T>>, doc: string)
    ensures |Prints(blocks, doc)| == |Group(blocks, doc)|
    ensures forall i | 0 <= i < |Group(blocks, doc)| :: Prints(blocks, doc)[i] == Group(blocks, doc)[i].fingerprint
  {
    if blocks != [] {
      PrintsAreGrouped(blocks[1..], doc);
      if blocks[0].doc != doc { assert [] + Prints(blocks[1..], doc) == Prints(blocks[1..], doc); }
    }
  }

  lemma SamePrints<T>(blocks: seq<Block<T>>, a: string, b: string)
    ensures SameFingerprints(Group(blocks, a), Group(blocks, b)) <==> Prints(blocks, a) == Prints(blocks, b)
    ensures Group(blocks, b) != [] <==> Prints(blocks, b) != []
  {
    PrintsAreGrouped(blocks, a);
    PrintsAreGrouped(blocks, b);
    if Prints(blocks, a) == Prints(blocks, b) {
      assert forall i | 0 <= i < |Group(blocks, a)| :: Prints(blocks, a)[i] == Prints(blocks, b)[i];
    }
  }

  /** The page a translation is named after. */
  lemma SiblingIsTold(doc: string)
    ensures forall base | doc == base + ".zh.md" :: UnsuffixedSibling(doc) == Some(base + ".md")
    ensures UnsuffixedSibling(doc).Some? ==> exists base :: doc == base + ".zh.md" && UnsuffixedSibling(doc).value == base + ".md"
  {
    forall base | doc == base + ".zh.md" ensures UnsuffixedSibling(doc) == Some(base + ".md") {
      assert doc[|doc| - 6..] == ".zh.md" && doc[..|doc| - 6] == base;
    }
    if UnsuffixedSibling(doc).Some? {
      var base := doc[..|doc| - 6];
      assert doc == base + ".zh.md";
    }
  }

  lemma DerivativeIsTold<T>(blocks: seq<Block<T>>, doc: string)
    ensures IsDerivative(blocks, doc) <==> Translated(blocks, doc)
  {
    SiblingIsTold(doc);
    if UnsuffixedSibling(doc).Some? {
      var base :| doc == base + ".zh.md" && UnsuffixedSibling(doc).value == base + ".md";
      SamePrints(blocks, doc, base + ".md");
      assert Repeats(blocks, doc, base) <==> IsDerivative(blocks, doc);
    }
    if base :| Repeats(blocks, doc, base) {
      SamePrints(blocks, doc, base + ".md");
    }
  }

  /** The derivatives are the blocks of translated pages and the primary ones all others, each part in scan order. */
  lemma PartitionIsTold<T>(blocks: seq<Block<T>>)
    ensures Picks(blocks, TranslatedTest(blocks), PartitionOf(blocks).derivatives)
    ensures Picks(blocks, OtherTest(blocks), PartitionOf(blocks).primary)
  {
    forall b | b in blocks ensures DerivativeTest(blocks)(b) == TranslatedTest(blocks)(b) && PrimaryTest(blocks)(b) == OtherTest(blocks)(b) {
      DerivativeIsTold(blocks, b.doc);
    }
    FilterCongruence(blocks, DerivativeTest(blocks), TranslatedTest(blocks));
    FilterCongruence(blocks, PrimaryTest(blocks), OtherTest(blocks));
    FilterPicks(blocks, TranslatedTest(blocks));
    FilterPicks(blocks, OtherTest(blocks));
  }
}
