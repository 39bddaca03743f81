/** The Python string primitives the wordlist engine relies on
    (`str.isspace`, `isalpha`, `isalnum`, `lower`, `upper`, `title`,
    `strip` and `split()` without arguments), modelled over ASCII. */
module Ascii {
  import opened Seqs

  /** Python's `str.isspace` on ASCII: tab, line feed, vertical tab, form
      feed, carriage return, the four separators 0x1c-0x1f, and space. */
  predicate IsSpace(c: char)
  {
    9 <= c as int <= 13 || 28 <= c as int <= 32
  }

  predicate IsUpper(c: char)
  {
    'A' <= c <= 'Z'
  }

  predicate IsLower(c: char)
  {
    'a' <= c <= 'z'
  }

  predicate IsAlpha(c: char)
  {
    IsUpper(c) || IsLower(c)
  }

  predicate IsDigit(c: char)
  {
    '0' <= c <= '9'
  }

  /** Python's `str.isalnum`: non-empty and every character a letter or digit. */
  predicate IsAlnumString(s: string)
  {
    |s| > 0 && forall i :: 0 <= i < |s| ==> IsAlpha(s[i]) || IsDigit(s[i])
  }

  predicate NoSpace(s: string)
  {
    forall i :: 0 <= i < |s| ==> !IsSpace(s[i])
  }

  predicate AllSpace(s: string)
  {
    forall i :: 0 <= i < |s| ==> IsSpace(s[i])
  }

  function LowerChar(c: char): (r: char)
  {
    if IsUpper(c) then (c as int + 32) as char else c
  }

  function UpperChar(c: char): (r: char)
  {
    if IsLower(c) then (c as int - 32) as char else c
  }

  function Lower(s: string): (r: string)
  {
    seq(|s|, i requires 0 <= i < |s| => LowerChar(s[i]))
  }

  function Upper(s: string): (r: string)
  {
    seq(|s|, i requires 0 <= i < |s| => UpperChar(s[i]))
  }

  /** Python's `str.title`: a letter is upper-cased when the character
      before it is not a letter (or it is first) and lower-cased otherwise. */
  function TitleFrom(s: string, previousCased: bool): (r: string)
  {
    if s == [] then []
    else
      var c := s[0];
      var mapped := if !IsAlpha(c) then c else if previousCased then LowerChar(c) else UpperChar(c);
      [mapped] + TitleFrom(s[1..], IsAlpha(c))
  }

  function Title(s: string): string
  {
    TitleFrom(s, false)
  }

  /** The characters of `s` that are not whitespace, in order. */
  function NonSpace(s: string): string
  {
    if s == [] then [] else (if IsSpace(s[0]) then [] else [s[0]]) + NonSpace(s[1..])
  }

  function TrimLeft(s: string): string
  {
    if s != [] && IsSpace(s[0]) then TrimLeft(s[1..]) else s
  }

  function TrimRight(s: string): string
  {
    if s != [] && IsSpace(s[|s| - 1]) then TrimRight(s[..|s| - 1]) else s
  }

  /** Python's `str.strip()`. */
  function Strip(s: string): string
  {
    TrimRight(TrimLeft(s))
  }

  /** Python's `str.split()` with no separator: the maximal runs of
      non-whitespace characters. `word` is the run being collected. */
  function SplitFrom(s: string, word: string): seq<string>
  {
    if s == [] then (if word == [] then [] else [word])
    else if IsSpace(s[0]) then (if word == [] then [] else [word]) + SplitFrom(s[1..], [])
    else SplitFrom(s[1..], word + [s[0]])
  }

  function Split(s: string): seq<string>
  {
    SplitFrom(s, [])
  }

  function Flatten(ss: seq<string>): string
  {
    if ss == [] then [] else ss[0] + Flatten(ss[1..])
  }

  // ---------------------------------------------------------------------
  // Case mapping

  lemma CaseMapping(c: char)
    ensures IsAlpha(c) ==> IsLower(LowerChar(c)) && IsUpper(UpperChar(c)) && LowerChar(c) != UpperChar(c)
    ensures IsAlpha(c) ==> LowerChar(UpperChar(c)) == LowerChar(c) && LowerChar(LowerChar(c)) == LowerChar(c)
    ensures !IsAlpha(c) ==> LowerChar(c) == c && UpperChar(c) == c
    ensures IsAlpha(LowerChar(c)) == IsAlpha(c) && IsAlpha(UpperChar(c)) == IsAlpha(c)
  {
  }

  /** A character has the same lower-case form as a letter `c` exactly when
      it is `c` in lower or in upper case. */
  lemma SameLetter(x: char, c: char)
    requires IsAlpha(c)
    ensures (IsAlpha(x) && LowerChar(x) == LowerChar(c)) <==> (x == LowerChar(c) || x == UpperChar(c))
  {
  }

  /** `lower`, `upper` and `title` keep the length, so none of them turns a
      non-empty token into an empty one. */
  lemma {:induction false} CaseMappingLength(s: string)
    ensures |Lower(s)| == |s| && |Upper(s)| == |s| && |Title(s)| == |s|
  {
    TitleFromLength(s, false);
  }

  lemma {:induction false} TitleFromLength(s: string, previousCased: bool)
    ensures |TitleFrom(s, previousCased)| == |s|
    decreases |s|
  {
    if s != [] {
      TitleFromLength(s[1..], IsAlpha(s[0]));
    }
  }

  // ---------------------------------------------------------------------
  // strip

  lemma {:induction false} TrimLeftProperties(s: string)
    ensures TrimLeft(s) == [] || !IsSpace(TrimLeft(s)[0])
    ensures TrimLeft(s) == [] <==> AllSpace(s)
    ensures NonSpace(TrimLeft(s)) == NonSpace(s)
    ensures |TrimLeft(s)| <= |s| && TrimLeft(s) == s[|s| - |TrimLeft(s)|..]
    decreases |s|
  {
    if s != [] && IsSpace(s[0]) {
      TrimLeftProperties(s[1..]);
      assert AllSpace(s) <==> AllSpace(s[1..]) by {
        if AllSpace(s[1..]) {
          forall i | 0 <= i < |s| ensures IsSpace(s[i]) {
            if i > 0 { assert s[i] == s[1..][i - 1]; }
          }
        }
      }
    }
  }

  lemma {:induction false} NonSpaceSnoc(s: string, c: char)
    ensures NonSpace(s + [c]) == NonSpace(s) + (if IsSpace(c) then [] else [c])
    decreases |s|
  {
    if s == [] {
      assert s + [c] == [c];
    } else {
      assert (s + [c])[0] == s[0] && (s + [c])[1..] == s[1..] + [c];
      NonSpaceSnoc(s[1..], c);
    }
  }

  lemma {:induction false} TrimRightProperties(s: string)
    ensures TrimRight(s) == [] || !IsSpace(TrimRight(s)[|TrimRight(s)| - 1])
    ensures TrimRight(s) == [] <==> AllSpace(s)
    ensures NonSpace(TrimRight(s)) == NonSpace(s)
    ensures |TrimRight(s)| <= |s| && TrimRight(s) == s[..|TrimRight(s)|]
    decreases |s|
  {
    if s != [] && IsSpace(s[|s| - 1]) {
      var p := s[..|s| - 1];
      TrimRightProperties(p);
      assert s == p + [s[|s| - 1]];
      NonSpaceSnoc(p, s[|s| - 1]);
      assert AllSpace(s) <==> AllSpace(p) by {
        if AllSpace(p) {
          forall i | 0 <= i < |s| ensures IsSpace(s[i]) {
            if i < |s| - 1 { assert s[i] == p[i]; }
          }
        }
      }
    }
  }

  /** `strip` leaves no whitespace at either end, gives the empty string
      exactly for all-whitespace input, and removes only whitespace. */
  lemma StripProperties(s: string)
    ensures Strip(s) == [] || (!IsSpace(Strip(s)[0]) && !IsSpace(Strip(s)[|Strip(s)| - 1]))
    ensures Strip(s) == [] <==> AllSpace(s)
    ensures NonSpace(Strip(s)) == NonSpace(s)
  {
    var l := TrimLeft(s);
    TrimLeftProperties(s);
    TrimRightProperties(l);
    if TrimRight(l) != [] {
      assert TrimRight(l)[0] == l[0];
    }
    if AllSpace(l) {
      assert l == [];
    }
  }

  // ---------------------------------------------------------------------
  // split

  lemma {:induction false} SplitFromProperties(s: string, word: string)
    requires NoSpace(word)
    ensures forall p :: p in SplitFrom(s, word) ==> p != [] && NoSpace(p)
    ensures Flatten(SplitFrom(s, word)) == word + NonSpace(s)
    decreases |s|
  {
    if s == [] {
      if word != [] {
        assert Flatten([word]) == word + Flatten([]);
      }
    } else if IsSpace(s[0]) {
      SplitFromProperties(s[1..], []);
      assert NonSpace(s) == NonSpace(s[1..]);
      var rest := SplitFrom(s[1..], []);
      if word != [] {
        assert ([word] + rest)[0] == word && ([word] + rest)[1..] == rest;
        assert Flatten([word] + rest) == word + Flatten(rest);
        assert forall p :: p in [word] + rest ==> p == word || p in rest;
      } else {
        assert SplitFrom(s, word) == rest;
      }
    } else {
      SplitFromProperties(s[1..], word + [s[0]]);
      assert word + [s[0]] + NonSpace(s[1..]) == word + NonSpace(s);
    }
  }

  /** The whitespace-split parts are non-empty, contain no whitespace, and
      together are the non-whitespace characters of the input, in order. */
  lemma SplitProperties(s: string)
    ensures forall p :: p in Split(s) ==> p != [] && NoSpace(p)
    ensures Flatten(Split(s)) == NonSpace(s)
  {
    SplitFromProperties(s, []);
  }

  lemma {:induction false} SplitFromAtSpace(a: string, c: char, b: string, word: string)
    requires IsSpace(c)
    ensures SplitFrom(a + [c] + b, word) == SplitFrom(a, word) + SplitFrom(b, [])
    decreases |a|
  {
    if a == [] {
      assert a + [c] + b == [c] + b;
      assert ([c] + b)[1..] == b;
    } else {
      assert (a + [c] + b)[0] == a[0];
      assert (a + [c] + b)[1..] == a[1..] + [c] + b;
      if IsSpace(a[0]) {
        SplitFromAtSpace(a[1..], c, b, []);
      } else {
        SplitFromAtSpace(a[1..], c, b, word + [a[0]]);
      }
    }
  }

  /** Whitespace separates: a whitespace character splits the text into the
      parts before it followed by the parts after it, so a run of
      whitespace acts as one separator and no part is ever cut elsewhere.
      With `SplitSingle` (a non-empty whitespace-free text is one part)
      this determines `Split` on every input. */
  lemma SplitAtSpace(a: string, c: char, b: string)
    requires IsSpace(c)
    ensures Split(a + [c] + b) == Split(a) + Split(b)
  {
    SplitFromAtSpace(a, c, b, []);
  }

  lemma {:induction false} SplitFromNoSpace(s: string, word: string)
    requires NoSpace(s) && word + s != []
    ensures SplitFrom(s, word) == [word + s]
    decreases |s|
  {
    if s == [] {
      assert word + s == word;
    } else {
      assert s[1..] == [] || NoSpace(s[1..]);
      SplitFromNoSpace(s[1..], word + [s[0]]);
      assert word + [s[0]] + s[1..] == word + s;
    }
  }

  /** Input that holds some non-space character splits into at least one part. */
  lemma {:induction false} SplitFromNonEmpty(s: string, word: string)
    requires word != [] || !AllSpace(s)
    ensures SplitFrom(s, word) != []
    decreases |s|
  {
    if s != [] {
      if IsSpace(s[0]) {
        if word == [] {
          assert !AllSpace(s[1..]) by {
            var k :| 0 <= k < |s| && !IsSpace(s[k]);
            assert s[1..][k - 1] == s[k];
          }
          SplitFromNonEmpty(s[1..], []);
        }
      } else {
        SplitFromNonEmpty(s[1..], word + [s[0]]);
      }
    }
  }

  /** A whitespace character followed later by a non-space character, while a
      word is being collected, gives at least two parts. */
  lemma {:induction false} SplitFromTwo(s: string, word: string, i: nat, j: nat)
    requires word != [] && i < j < |s| && IsSpace(s[i]) && !IsSpace(s[j])
    ensures |SplitFrom(s, word)| >= 2
    decreases |s|
  {
    if IsSpace(s[0]) {
      assert !AllSpace(s[1..]) by {
        assert s[1..][j - 1] == s[j];
      }
      SplitFromNonEmpty(s[1..], []);
    } else {
      assert i > 0;
      assert s[1..][i - 1] == s[i] && s[1..][j - 1] == s[j];
      SplitFromTwo(s[1..], word + [s[0]], i - 1, j - 1);
    }
  }

  /** A stripped string splits into a single part or none exactly when it
      holds no whitespace. */
  lemma SplitSingle(t: string)
    requires t == [] || (!IsSpace(t[0]) && !IsSpace(t[|t| - 1]))
    ensures |Split(t)| <= 1 <==> NoSpace(t)
    ensures NoSpace(t) && t != [] ==> Split(t) == [t]
  {
    if NoSpace(t) {
      if t != [] {
        SplitFromNoSpace(t, []);
        assert [] + t == t;
      }
    } else {
      var i :| 0 <= i < |t| && IsSpace(t[i]);
      assert 0 < i < |t| - 1;
      assert t[1..][i - 1] == t[i] && t[1..][|t| - 2] == t[|t| - 1];
      assert Split(t) == SplitFrom(t[1..], [t[0]]) by {
        assert [] + [t[0]] == [t[0]];
      }
      SplitFromTwo(t[1..], [t[0]], i - 1, |t| - 2);
    }
  }

  lemma {:induction false} SplitFromLeadingSpace(s: string, n: nat)
    requires n <= |s| && AllSpace(s[..n])
    ensures SplitFrom(s, []) == SplitFrom(s[n..], [])
    decreases n
  {
    if n > 0 {
      assert IsSpace(s[..n][0]);
      assert s[1..][..n - 1] == s[..n][1..];
      AllSpaceTail(s[..n]);
      SplitFromLeadingSpace(s[1..], n - 1);
      assert s[1..][n - 1..] == s[n..];
    }
  }

  lemma {:induction false} SplitFromTrailingSpace(s: string, word: string, tail: string)
    requires AllSpace(tail)
    ensures SplitFrom(s + tail, word) == SplitFrom(s, word)
    decreases |s|
  {
    if s == [] {
      assert s + tail == tail;
      SplitFromAllSpace(tail, word);
    } else {
      assert (s + tail)[0] == s[0] && (s + tail)[1..] == s[1..] + tail;
      if IsSpace(s[0]) {
        SplitFromTrailingSpace(s[1..], [], tail);
      } else {
        SplitFromTrailingSpace(s[1..], word + [s[0]], tail);
      }
    }
  }

  lemma AllSpaceTail(u: string)
    requires u != [] && AllSpace(u)
    ensures AllSpace(u[1..])
  {
    forall k | 0 <= k < |u| - 1 ensures IsSpace(u[1..][k]) { assert u[1..][k] == u[k + 1]; }
  }

  lemma {:induction false} SplitFromAllSpace(s: string, word: string)
    requires AllSpace(s)
    ensures SplitFrom(s, word) == (if word == [] then [] else [word])
    decreases |s|
  {
    if s != [] {
      AllSpaceTail(s);
      SplitFromAllSpace(s[1..], []);
    }
  }

  /** Splitting after `strip` gives the same parts as splitting the raw text. */
  lemma SplitStrip(s: string)
    ensures Split(Strip(s)) == Split(s)
  {
    var l := TrimLeft(s);
    TrimLeftProperties(s);
    var n := |s| - |l|;
    assert s[n..] == l;
    assert AllSpace(s[..n]) by {
      LeadingSpaces(s);
    }
    SplitFromLeadingSpace(s, n);
    var r := TrimRight(l);
    TrimRightProperties(l);
    assert l == r + l[|r|..];
    assert AllSpace(l[|r|..]) by {
      TrailingSpaces(l);
    }
    SplitFromTrailingSpace(r, [], l[|r|..]);
  }

  lemma {:induction false} LeadingSpaces(s: string)
    ensures |TrimLeft(s)| <= |s| && AllSpace(s[..|s| - |TrimLeft(s)|])
    decreases |s|
  {
    if s != [] && IsSpace(s[0]) {
      LeadingSpaces(s[1..]);
      var n := |s| - |TrimLeft(s)|;
      forall k | 0 <= k < n ensures IsSpace(s[..n][k]) {
        if k > 0 {
          assert s[..n][k] == s[1..][..n - 1][k - 1];
        }
      }
    }
  }

  lemma {:induction false} TrailingSpaces(s: string)
    ensures |TrimRight(s)| <= |s| && AllSpace(s[|TrimRight(s)|..])
    decreases |s|
  {
    if s != [] && IsSpace(s[|s| - 1]) {
      var p := s[..|s| - 1];
      TrailingSpaces(p);
      var m := |TrimRight(s)|;
      forall k | 0 <= k < |s| - m ensures IsSpace(s[m..][k]) {
        if m + k < |s| - 1 {
          assert s[m..][k] == p[m..][k];
        }
      }
    }
  }
}
