/** The token pool: the non-empty tokens of the three input lists, expanded
    into case variants on request, deduplicated at first occurrence. */
module Pool {
  import opened Seqs
  import opened Ascii
  import opened Casing

  /** One line of the variant report: a token and how many variants it gave. */
  datatype Expansion = Expansion(original: string, count: nat)

  datatype PoolError = NoTokens | EmptyToken

  datatype PoolResult =
    | Built(tokens: seq<string>, info: seq<Expansion>)
    | Refused(error: PoolError)

  /** The input tokens in order, without empty strings. */
  function Originals(words: seq<string>, numbers: seq<string>, specials: seq<string>): seq<string>
  {
    DropEmpty(words + numbers + specials)
  }

  /** The variants of every token, concatenated in token order. */
  function ExpandAll(originals: seq<string>): seq<string>
  {
    if originals == [] then []
    else Variants(originals[0], MaxVariantsPerToken) + ExpandAll(originals[1..])
  }

  function Expanded(originals: seq<string>, caseExpand: bool): seq<string>
  {
    if caseExpand then ExpandAll(originals) else originals
  }

  function CountFor(original: string, caseExpand: bool): nat
  {
    if caseExpand then |Variants(original, MaxVariantsPerToken)| else 1
  }

  function Info(originals: seq<string>, caseExpand: bool): seq<Expansion>
  {
    seq(|originals|, i requires 0 <= i < |originals| => Expansion(originals[i], CountFor(originals[i], caseExpand)))
  }

  /** The pool the program builds, or the reason it stops: no token at all,
      or an empty token in the pool. */
  function PoolOf(words: seq<string>, numbers: seq<string>, specials: seq<string>, caseExpand: bool): PoolResult
  {
    var originals := Originals(words, numbers, specials);
    if originals == [] then Refused(NoTokens)
    else
      var tokens := Dedup(Expanded(originals, caseExpand));
      if [] in tokens then Refused(EmptyToken)
      else Built(tokens, Info(originals, caseExpand))
  }

  /** Pool building as the program does it: filter, expand token by token
      with the variant generator, deduplicate with a `seen` set, and check
      for an empty token. */
  method BuildPool(words: seq<string>, numbers: seq<string>, specials: seq<string>, caseExpand: bool)
    returns (r: PoolResult)
    ensures r == PoolOf(words, numbers, specials, caseExpand)
  {
    var originals := DropEmpty(words + numbers + specials);
    if originals == [] {
      return Refused(NoTokens);
    }
    var expanded: seq<string>;
    var info: seq<Expansion>;
    if caseExpand {
      expanded, info := ExpandTokens(originals);
    } else {
      expanded := originals;
      info := ReportUnexpanded(originals);
    }
    var tokens := DedupInOrder(expanded);
    if [] in tokens {
      return Refused(EmptyToken);
    }
    r := Built(tokens, info);
  }

  /** The case-expansion loop: the variants of each token appended in
      token order, and one report line per token with its variant count. */
  method ExpandTokens(originals: seq<string>) returns (expanded: seq<string>, info: seq<Expansion>)
    ensures expanded == ExpandAll(originals)
    ensures info == Info(originals, true)
  {
    expanded, info := [], [];
    var i := 0;
    while i < |originals|
      invariant 0 <= i <= |originals|
      invariant expanded + ExpandAll(originals[i..]) == ExpandAll(originals)
      invariant info == Info(originals[..i], true)
    {
      var t := originals[i];
      var v := CaseVariants(t, MaxVariantsPerToken);
      ExpandAllStep(originals, i);
      assert (expanded + v) + ExpandAll(originals[i + 1..]) == expanded + (v + ExpandAll(originals[i + 1..]));
      expanded := expanded + v;
      info := info + [Expansion(t, |v|)];
      assert originals[..i + 1] == originals[..i] + [t];
      i := i + 1;
    }
    assert originals[i..] == [];
    assert originals[..i] == originals;
  }

  lemma ExpandAllStep(originals: seq<string>, i: nat)
    requires i < |originals|
    ensures ExpandAll(originals[i..]) == Variants(originals[i], MaxVariantsPerToken) + ExpandAll(originals[i + 1..])
  {
    assert originals[i..][1..] == originals[i + 1..];
  }

  /** The report loop without case expansion: one line per token, each
      with count 1. */
  method ReportUnexpanded(originals: seq<string>) returns (info: seq<Expansion>)
    ensures info == Info(originals, false)
  {
    info := [];
    var i := 0;
    while i < |originals|
      invariant 0 <= i <= |originals|
      invariant info == Info(originals[..i], false)
    {
      info := info + [Expansion(originals[i], 1)];
      assert originals[..i + 1] == originals[..i] + [originals[i]];
      i := i + 1;
    }
    assert originals[..i] == originals;
  }

  // ---------------------------------------------------------------------
  // Properties of the pool

  /** The input token itself is always among its variants. */
  lemma TokenIsVariant(token: string, maxVariants: int)
    ensures token in Variants(token, maxVariants)
  {
    if CapExceeded(token, maxVariants) {
      VariantsAboveCap(token, maxVariants);
    } else {
      VariantsBelowCap(token, maxVariants);
      assert IsCaseVariant(token, token);
    }
  }

  /** The expansion holds the variants of each token and nothing else, and
      every variant has the length of its token. */
  lemma {:induction false} ExpandAllMembership(originals: seq<string>, v: string)
    ensures v in ExpandAll(originals) <==>
      exists k :: 0 <= k < |originals| && v in Variants(originals[k], MaxVariantsPerToken)
    ensures v in ExpandAll(originals) ==> exists k :: 0 <= k < |originals| && |v| == |originals[k]|
    decreases |originals|
  {
    if originals != [] {
      ExpandAllMembership(originals[1..], v);
      VariantsLength(originals[0], MaxVariantsPerToken);
      if v in ExpandAll(originals[1..]) {
        var k :| 0 <= k < |originals[1..]| && v in Variants(originals[1..][k], MaxVariantsPerToken);
        assert originals[k + 1] == originals[1..][k];
      }
      if exists k :: 0 <= k < |originals| && v in Variants(originals[k], MaxVariantsPerToken) {
        var k :| 0 <= k < |originals| && v in Variants(originals[k], MaxVariantsPerToken);
        if k > 0 {
          assert originals[1..][k - 1] == originals[k];
        }
      }
    }
  }

  /** The input filter keeps the order and drops exactly the empty strings. */
  lemma OriginalsProperties(words: seq<string>, numbers: seq<string>, specials: seq<string>)
    ensures Elems(Originals(words, numbers, specials)) == Elems(words + numbers + specials) - {[]}
    ensures Originals(words, numbers, specials) == DropEmpty(words) + DropEmpty(numbers) + DropEmpty(specials)
  {
    DropEmptyProperties(words + numbers + specials);
    DropEmptyAppend(words + numbers, specials);
    DropEmptyAppend(words, numbers);
  }

  /** The program stops before generating exactly when no input token is
      non-empty; the empty-token check never fires, since every variant is
      as long as a non-empty input token. */
  lemma PoolRefusal(words: seq<string>, numbers: seq<string>, specials: seq<string>, caseExpand: bool)
    ensures PoolOf(words, numbers, specials, caseExpand).Refused? <==>
      forall t :: t in words + numbers + specials ==> t == []
    ensures PoolOf(words, numbers, specials, caseExpand) != Refused(EmptyToken)
  {
    var all := words + numbers + specials;
    var originals := Originals(words, numbers, specials);
    OriginalsProperties(words, numbers, specials);
    assert forall t :: t in all <==> t in Elems(all);
    assert forall t :: t in originals <==> t in Elems(originals);
    if originals != [] {
      var expanded := Expanded(originals, caseExpand);
      DedupProperties(expanded);
      if caseExpand {
        ExpandAllMembership(originals, []);
      }
      assert [] !in expanded;
      assert [] !in Elems(Dedup(expanded));
      assert [] !in Dedup(expanded);
      assert originals[0] in Elems(all) - {[]} by {
        assert originals[0] in Elems(originals);
      }
    } else {
      assert forall t :: t in all ==> t == [] by {
        forall t | t in all ensures t == [] {
          assert t !in Elems(all) - {[]};
        }
      }
    }
  }

  /** The tokens of a built pool: no token twice, none empty, each at the
      position of its first occurrence in the expansion, and exactly the
      tokens of the expansion. */
  lemma PoolShape(words: seq<string>, numbers: seq<string>, specials: seq<string>, caseExpand: bool)
    requires PoolOf(words, numbers, specials, caseExpand).Built?
    ensures var tokens := PoolOf(words, numbers, specials, caseExpand).tokens;
      var expanded := Expanded(Originals(words, numbers, specials), caseExpand);
      && NoDup(tokens)
      && (forall t :: t in tokens ==> t != [])
      && Elems(tokens) == Elems(expanded)
      && FirstOccurrenceOrder(tokens, expanded)
  {
    var originals := Originals(words, numbers, specials);
    var expanded := Expanded(originals, caseExpand);
    var tokens := PoolOf(words, numbers, specials, caseExpand).tokens;
    assert tokens == Dedup(expanded);
    DedupProperties(expanded);
  }

  /** What a built pool holds: without case expansion the non-empty input
      tokens; with it the variants of each input token, so every input
      token too. */
  lemma PoolContent(words: seq<string>, numbers: seq<string>, specials: seq<string>, caseExpand: bool)
    requires PoolOf(words, numbers, specials, caseExpand).Built?
    ensures var tokens := PoolOf(words, numbers, specials, caseExpand).tokens;
      var originals := Originals(words, numbers, specials);
      && (!caseExpand ==> Elems(tokens) == Elems(words + numbers + specials) - {[]})
      && (caseExpand ==> forall v :: v in tokens <==>
            exists k :: 0 <= k < |originals| && v in Variants(originals[k], MaxVariantsPerToken))
      && (forall t :: t in originals ==> t in tokens)
      && tokens != []
  {
    var tokens := PoolOf(words, numbers, specials, caseExpand).tokens;
    var originals := Originals(words, numbers, specials);
    var expanded := Expanded(originals, caseExpand);
    DedupProperties(expanded);
    OriginalsProperties(words, numbers, specials);
    assert forall t :: t in tokens <==> t in Elems(tokens);
    assert forall t :: t in expanded <==> t in Elems(expanded);
    if caseExpand {
      forall v ensures v in tokens <==>
        exists k :: 0 <= k < |originals| && v in Variants(originals[k], MaxVariantsPerToken) {
        ExpandAllMembership(originals, v);
      }
      forall t | t in originals ensures t in tokens {
        var k :| 0 <= k < |originals| && originals[k] == t;
        TokenIsVariant(t, MaxVariantsPerToken);
        ExpandAllMembership(originals, t);
      }
    }
    assert originals[0] in tokens;
  }

  /** The variant report has one line per non-empty input token, in input
      order, with the number of variants that token gave. */
  lemma PoolReport(words: seq<string>, numbers: seq<string>, specials: seq<string>, caseExpand: bool)
    requires PoolOf(words, numbers, specials, caseExpand).Built?
    ensures var info := PoolOf(words, numbers, specials, caseExpand).info;
      var originals := Originals(words, numbers, specials);
      && |info| == |originals|
      && forall k :: 0 <= k < |originals| ==>
           info[k].original == originals[k] &&
           (caseExpand ==> info[k].count == |Variants(originals[k], MaxVariantsPerToken)|) &&
           (!caseExpand ==> info[k].count == 1)
  {
  }
}
