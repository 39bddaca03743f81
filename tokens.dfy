/** The token normalizer: one raw input line becomes a list of tokens. */
module Tokens {
  import opened Ascii

  /** Python's `list(s)`: one single-character token per character. */
  function Chars(s: string): seq<string>
  {
    seq(|s|, i requires 0 <= i < |s| => [s[i]])
  }

  /** `parse_tokens`: blank input gives no tokens; a single whitespace-free
      run that is longer than one character and not purely alphanumeric is
      split into its characters; anything else is split on whitespace. */
  function ParseTokens(raw: string): seq<string>
  {
    var t := Strip(raw);
    if t == [] then []
    else
      var parts := Split(t);
      if |parts| == 1 && ' ' !in t && |t| > 1 && !IsAlnumString(t) then Chars(t)
      else parts
  }

  /** Blank or whitespace-only input, and only that, gives no tokens. */
  lemma ParseTokensEmpty(raw: string)
    ensures ParseTokens(raw) == [] <==> AllSpace(raw)
  {
    var t := Strip(raw);
    StripProperties(raw);
    if t != [] {
      assert !AllSpace(t) by {
        assert !IsSpace(t[0]);
      }
      SplitFromNonEmpty(t, []);
    }
  }

  /** The three cases of the normalizer, stated over the whole input: the
      symbol-run case gives the characters of the stripped input, every
      other case gives the whitespace-split parts of the input unchanged. */
  lemma ParseTokensCases(raw: string)
    ensures var t := Strip(raw);
      ParseTokens(raw) ==
        if NoSpace(t) && |t| > 1 && !IsAlnumString(t) then Chars(t) else Split(raw)
  {
    var t := Strip(raw);
    StripProperties(raw);
    SplitStrip(raw);
    if t != [] {
      assert !AllSpace(t) by {
        assert !IsSpace(t[0]);
      }
      SplitFromNonEmpty(t, []);
      SplitSingle(t);
      if NoSpace(t) {
        assert ' ' !in t by {
          forall i | 0 <= i < |t| ensures t[i] != ' ' {
            assert !IsSpace(t[i]);
          }
        }
      }
    }
  }

  lemma {:induction false} FlattenChars(s: string)
    ensures Flatten(Chars(s)) == s
    decreases |s|
  {
    if s != [] {
      assert Chars(s)[1..] == Chars(s[1..]);
      FlattenChars(s[1..]);
      assert [s[0]] + s[1..] == s;
    }
  }

  lemma {:induction false} NonSpaceOfNoSpace(s: string)
    requires NoSpace(s)
    ensures NonSpace(s) == s
    decreases |s|
  {
    if s != [] {
      assert !IsSpace(s[0]);
      assert NoSpace(s[1..]) by {
        forall i | 0 <= i < |s| - 1 ensures !IsSpace(s[1..][i]) { assert s[1..][i] == s[i + 1]; }
      }
      NonSpaceOfNoSpace(s[1..]);
      assert [s[0]] + s[1..] == s;
    }
  }

  /** Every token is non-empty and free of whitespace, and the tokens put
      back together are exactly the non-whitespace characters of the input:
      the normalizer loses nothing but whitespace and reorders nothing. */
  lemma ParseTokensContent(raw: string)
    ensures forall p :: p in ParseTokens(raw) ==> p != [] && NoSpace(p)
    ensures Flatten(ParseTokens(raw)) == NonSpace(raw)
  {
    var t := Strip(raw);
    ParseTokensCases(raw);
    StripProperties(raw);
    SplitProperties(raw);
    if NoSpace(t) && |t| > 1 && !IsAlnumString(t) {
      FlattenChars(t);
      NonSpaceOfNoSpace(t);
      forall p | p in Chars(t) ensures p != [] && NoSpace(p) {
        var i :| 0 <= i < |t| && Chars(t)[i] == p;
        assert p == [t[i]] && !IsSpace(t[i]);
      }
    }
  }

  /** A single alphanumeric word, or a single character, stays one token. */
  lemma ParseTokensSingleWord(raw: string)
    requires var t := Strip(raw); t != [] && NoSpace(t) && (|t| == 1 || IsAlnumString(t))
    ensures ParseTokens(raw) == [Strip(raw)]
  {
    var t := Strip(raw);
    StripProperties(raw);
    SplitSingle(t);
    ParseTokensCases(raw);
    SplitStrip(raw);
  }
  /** Two whitespace-free words separated by a space stay two tokens:
      `"omer faruk"` gives `["omer", "faruk"]`, not one token per
      character. */
  lemma ParseTokensTwoWords(a: string, b: string)
    requires a != [] && b != [] && NoSpace(a) && NoSpace(b)
    ensures ParseTokens(a + [' '] + b) == [a, b]
  {
    var raw := a + [' '] + b;
    SplitAtSpace(a, ' ', b);
    SplitSingle(a);
    SplitSingle(b);
    assert Split(raw) == [a, b];
    var t := Strip(raw);
    ParseTokensCases(raw);
    SplitStrip(raw);
    SplitSingle(t);
  }

  lemma ExampleTwoWords()
    ensures ParseTokens("omer faruk") == ["omer", "faruk"]
  {
    assert "omer" + [' '] + "faruk" == "omer faruk";
    ParseTokensTwoWords("omer", "faruk");
  }
}
