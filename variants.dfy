/** The case expander: the upper/lower-case variants of one token, with a
    cap on how many are produced exhaustively. */
module Casing {
  import opened Seqs
  import opened Ascii

  /** `MAX_VARIANTS_PER_TOKEN`. */
  const MaxVariantsPerToken: int := 1024

  /** The choices for one character: (lower, upper) for a letter, the
      character alone otherwise. */
  function ChoiceOf(c: char): seq<char>
  {
    if IsAlpha(c) then [LowerChar(c), UpperChar(c)] else [c]
  }

  function Choices(token: string): seq<seq<char>>
  {
    seq(|token|, i requires 0 <= i < |token| => ChoiceOf(token[i]))
  }

  function ConsAll(x: char, ps: seq<string>): seq<string>
  {
    seq(|ps|, i requires 0 <= i < |ps| => [x] + ps[i])
  }

  function PrependEach(xs: seq<char>, ps: seq<string>): seq<string>
  {
    if xs == [] then [] else ConsAll(xs[0], ps) + PrependEach(xs[1..], ps)
  }

  /** `itertools.product(*cs)` with each tuple joined into a string: the
      first position varies slowest, the last fastest. */
  function Product(cs: seq<seq<char>>): seq<string>
  {
    if cs == [] then [[]] else PrependEach(cs[0], Product(cs[1..]))
  }

  function Pow2(k: nat): nat
  {
    if k == 0 then 1 else 2 * Pow2(k - 1)
  }

  function AlphaCount(s: string): nat
  {
    if s == [] then 0 else (if IsAlpha(s[0]) then 1 else 0) + AlphaCount(s[1..])
  }

  /** The running product `total` after the first `k` characters. */
  function RunningProduct(token: string, k: nat): nat
    requires k <= |token|
  {
    Pow2(AlphaCount(token[..k]))
  }

  /** The running product passes the cap after some character. */
  predicate CapExceeded(token: string, maxVariants: int)
  {
    exists k :: 1 <= k <= |token| && RunningProduct(token, k) > maxVariants
  }

  /** Original, lower, upper and title case, duplicates removed in that order. */
  function Fallback(token: string): seq<string>
  {
    Dedup([token, Lower(token), Upper(token), Title(token)])
  }

  /** What `case_variants(token, maxVariants)` returns. */
  function Variants(token: string, maxVariants: int): seq<string>
  {
    if CapExceeded(token, maxVariants) then Fallback(token) else Dedup(Product(Choices(token)))
  }

  /** `v` differs from `token` only by the case of its letters. */
  predicate IsCaseVariant(v: string, token: string)
  {
    |v| == |token| &&
    forall i :: 0 <= i < |token| ==>
      if IsAlpha(token[i]) then IsAlpha(v[i]) && LowerChar(v[i]) == LowerChar(token[i])
      else v[i] == token[i]
  }

  /** `case_variants`: builds the per-character choices, multiplies their
      sizes, and either falls back to the four whole-token casings as soon as
      the running product passes the cap, or deduplicates the full product. */
  method CaseVariants(token: string, maxVariants: int) returns (r: seq<string>)
    ensures r == Variants(token, maxVariants)
  {
    var choices: seq<seq<char>> := [];
    var i := 0;
    while i < |token|
      invariant 0 <= i <= |token|
      invariant |choices| == i
      invariant forall j :: 0 <= j < i ==> choices[j] == ChoiceOf(token[j])
    {
      var ch := token[i];
      if IsAlpha(ch) {
        choices := choices + [[LowerChar(ch), UpperChar(ch)]];
      } else {
        choices := choices + [[ch]];
      }
      i := i + 1;
    }
    assert choices == Choices(token);
    var total := 1;
    i := 0;
    while i < |choices|
      invariant 0 <= i <= |choices|
      invariant total == RunningProduct(token, i)
      invariant forall k :: 1 <= k <= i ==> RunningProduct(token, k) <= maxVariants
    {
      AlphaCountSnoc(token[..i], token[i]);
      assert token[..i + 1] == token[..i] + [token[i]];
      total := total * |choices[i]|;
      if total > maxVariants {
        assert RunningProduct(token, i + 1) > maxVariants;
        r := DedupInOrder([token, Lower(token), Upper(token), Title(token)]);
        return;
      }
      i := i + 1;
    }
    assert !CapExceeded(token, maxVariants);
    var variants := Product(choices);
    r := DedupInOrder(variants);
  }

  // ---------------------------------------------------------------------
  // The running product and the cap

  lemma {:induction false} AlphaCountSnoc(s: string, c: char)
    ensures AlphaCount(s + [c]) == AlphaCount(s) + (if IsAlpha(c) then 1 else 0)
    decreases |s|
  {
    if s == [] {
      assert s + [c] == [c];
    } else {
      assert (s + [c])[0] == s[0] && (s + [c])[1..] == s[1..] + [c];
      AlphaCountSnoc(s[1..], c);
    }
  }

  lemma {:induction false} AlphaCountPrefix(s: string, k: nat)
    requires k <= |s|
    ensures AlphaCount(s[..k]) <= AlphaCount(s)
    decreases |s|
  {
    if k > 0 {
      assert s[..k][1..] == s[1..][..k - 1];
      AlphaCountPrefix(s[1..], k - 1);
    }
  }

  lemma {:induction false} Pow2Monotone(a: nat, b: nat)
    requires a <= b
    ensures Pow2(a) <= Pow2(b)
    decreases b
  {
    if a < b {
      Pow2Monotone(a, b - 1);
    }
  }

  /** Because every choice has one or two entries the running product never
      decreases, so the cap is passed at some character exactly when the
      token is non-empty and its full product 2^(letters) passes it. An
      empty token never falls back, whatever the cap. */
  lemma CapExceededIff(token: string, maxVariants: int)
    ensures CapExceeded(token, maxVariants) <==>
      |token| > 0 && Pow2(AlphaCount(token)) > maxVariants
  {
    assert token[..|token|] == token;
    if CapExceeded(token, maxVariants) {
      var k :| 1 <= k <= |token| && RunningProduct(token, k) > maxVariants;
      AlphaCountPrefix(token, k);
      Pow2Monotone(AlphaCount(token[..k]), AlphaCount(token));
    } else if |token| > 0 {
      assert !(RunningProduct(token, |token|) > maxVariants);
    }
  }

  // ---------------------------------------------------------------------
  // The Cartesian product

  lemma ConsAllMembership(x: char, ps: seq<string>, v: string)
    ensures v in ConsAll(x, ps) <==> v != [] && v[0] == x && v[1..] in ps
  {
    if v != [] && v[0] == x && v[1..] in ps {
      var i :| 0 <= i < |ps| && ps[i] == v[1..];
      assert ConsAll(x, ps)[i] == v;
    }
  }

  lemma {:induction false} PrependEachMembership(xs: seq<char>, ps: seq<string>, v: string)
    ensures v in PrependEach(xs, ps) <==> v != [] && v[0] in xs && v[1..] in ps
    decreases |xs|
  {
    if xs != [] {
      ConsAllMembership(xs[0], ps, v);
      PrependEachMembership(xs[1..], ps, v);
      assert v in PrependEach(xs, ps) <==> v in ConsAll(xs[0], ps) || v in PrependEach(xs[1..], ps);
      assert forall y :: y in xs <==> y == xs[0] || y in xs[1..];
    }
  }

  /** A string is in the product exactly when it picks, position by
      position, one of that position's choices. */
  lemma {:induction false} ProductMembership(cs: seq<seq<char>>, v: string)
    ensures v in Product(cs) <==> |v| == |cs| && forall i :: 0 <= i < |cs| ==> v[i] in cs[i]
    decreases |cs|
  {
    if cs == [] {
    } else {
      PrependEachMembership(cs[0], Product(cs[1..]), v);
      if v != [] {
        ProductMembership(cs[1..], v[1..]);
        if |v| == |cs| && forall i :: 0 <= i < |cs| ==> v[i] in cs[i] {
          forall i | 0 <= i < |cs| - 1 ensures v[1..][i] in cs[1..][i] {
            assert v[1..][i] == v[i + 1];
          }
        }
        if v[0] in cs[0] && v[1..] in Product(cs[1..]) {
          forall i | 0 <= i < |cs| ensures v[i] in cs[i] {
            if i > 0 {
              assert v[i] == v[1..][i - 1];
            }
          }
        }
      }
    }
  }

  lemma ConsAllNoDup(x: char, ps: seq<string>)
    requires NoDup(ps)
    ensures NoDup(ConsAll(x, ps))
  {
    forall i, j | 0 <= i < j < |ps| ensures ConsAll(x, ps)[i] != ConsAll(x, ps)[j] {
      assert ConsAll(x, ps)[i][1..] == ps[i];
      assert ConsAll(x, ps)[j][1..] == ps[j];
    }
  }

  lemma {:induction false} PrependEachNoDup(xs: seq<char>, ps: seq<string>)
    requires NoDup(xs) && NoDup(ps)
    ensures NoDup(PrependEach(xs, ps))
    decreases |xs|
  {
    if xs != [] {
      assert NoDup(xs[1..]) by {
        forall i, j | 0 <= i < j < |xs| - 1 ensures xs[1..][i] != xs[1..][j] {
          assert xs[i + 1] != xs[j + 1];
        }
      }
      ConsAllNoDup(xs[0], ps);
      PrependEachNoDup(xs[1..], ps);
      forall v | v in Elems(ConsAll(xs[0], ps)) ensures v !in Elems(PrependEach(xs[1..], ps)) {
        ConsAllMembership(xs[0], ps, v);
        PrependEachMembership(xs[1..], ps, v);
        assert xs[0] !in xs[1..] by {
          forall k | 0 <= k < |xs| - 1 ensures xs[1..][k] != xs[0] { assert xs[k + 1] != xs[0]; }
        }
      }
      NoDupConcat(ConsAll(xs[0], ps), PrependEach(xs[1..], ps));
    }
  }

  /** Distinct choices at every position give distinct product strings. */
  lemma {:induction false} ProductNoDup(cs: seq<seq<char>>)
    requires forall i :: 0 <= i < |cs| ==> NoDup(cs[i])
    ensures NoDup(Product(cs))
    decreases |cs|
  {
    if cs != [] {
      ProductNoDup(cs[1..]);
      PrependEachNoDup(cs[0], Product(cs[1..]));
    }
  }

  lemma {:induction false} PrependEachSize(xs: seq<char>, ps: seq<string>)
    ensures |PrependEach(xs, ps)| == |xs| * |ps|
    decreases |xs|
  {
    if xs != [] {
      PrependEachSize(xs[1..], ps);
    }
  }

  /** The product has 2^(number of letters) strings. */
  lemma {:induction false} ProductSize(token: string)
    ensures |Product(Choices(token))| == Pow2(AlphaCount(token))
    decreases |token|
  {
    if token != [] {
      assert Choices(token)[1..] == Choices(token[1..]);
      ProductSize(token[1..]);
      PrependEachSize(ChoiceOf(token[0]), Product(Choices(token[1..])));
    }
  }

  // ---------------------------------------------------------------------
  // What case_variants returns

  /** Below the cap: the variants are duplicate-free, they are exactly the
      strings that differ from the token only by the case of its letters,
      and there are 2^(number of letters) of them. */
  lemma VariantsBelowCap(token: string, maxVariants: int)
    requires !CapExceeded(token, maxVariants)
    ensures NoDup(Variants(token, maxVariants))
    ensures forall v :: v in Variants(token, maxVariants) <==> IsCaseVariant(v, token)
    ensures |Variants(token, maxVariants)| == Pow2(AlphaCount(token))
  {
    var cs := Choices(token);
    forall i | 0 <= i < |cs| ensures NoDup(cs[i]) {
      CaseMapping(token[i]);
    }
    ProductNoDup(cs);
    FreshOfNoDup(Product(cs), {});
    ProductSize(token);
    forall v ensures v in Variants(token, maxVariants) <==> IsCaseVariant(v, token) {
      ProductMembership(cs, v);
      if |v| == |token| {
        forall i | 0 <= i < |token|
          ensures v[i] in cs[i] <==>
            if IsAlpha(token[i]) then IsAlpha(v[i]) && LowerChar(v[i]) == LowerChar(token[i])
            else v[i] == token[i]
        {
          if IsAlpha(token[i]) {
            SameLetter(v[i], token[i]);
          }
        }
      }
    }
  }

  /** Above the cap: between one and four entries, the token itself first,
      then whichever of its lower, upper and title casings are new. */
  lemma VariantsAboveCap(token: string, maxVariants: int)
    requires CapExceeded(token, maxVariants)
    ensures Variants(token, maxVariants) == Dedup([token, Lower(token), Upper(token), Title(token)])
    ensures 1 <= |Variants(token, maxVariants)| <= 4
    ensures Variants(token, maxVariants)[0] == token
    ensures NoDup(Variants(token, maxVariants))
    ensures Elems(Variants(token, maxVariants)) == {token, Lower(token), Upper(token), Title(token)}
  {
    var four := [token, Lower(token), Upper(token), Title(token)];
    DedupProperties(four);
    DedupHead(four);
  }

  /** Every variant, on either side of the cap, has the token's length. */
  lemma VariantsLength(token: string, maxVariants: int)
    ensures forall v :: v in Variants(token, maxVariants) ==> |v| == |token|
  {
    if CapExceeded(token, maxVariants) {
      VariantsAboveCap(token, maxVariants);
      CaseMappingLength(token);
      assert forall v :: v in Variants(token, maxVariants) ==> v in Elems(Variants(token, maxVariants));
    } else {
      VariantsBelowCap(token, maxVariants);
    }
  }
}
