/** The sequence generator: a depth-first search over token concatenations,
    pruned at the maximum length, that writes every new non-empty string
    whose length lies in the window. The output file is a sequence of lines. */
module Generation {
  import opened Seqs
  import opened Counter

  predicate NonEmptyTokens(pool: seq<string>)
  {
    forall i :: 0 <= i < |pool| ==> |pool[i]| > 0
  }

  function Lengths(pool: seq<string>): seq<nat>
  {
    seq(|pool|, i requires 0 <= i < |pool| => |pool[i]|)
  }

  /** The search nodes at or below `curr` whose length lies in the window,
      in the order the search reaches them: the node itself, then the
      subtree of each token in pool order. A node at the maximum length has
      no children, and a child longer than the maximum is not entered. */
  function Visit(pool: seq<string>, minLen: int, maxLen: int, curr: string): seq<string>
    requires NonEmptyTokens(pool)
    decreases maxLen - |curr|, |pool| + 1
  {
    (if minLen <= |curr| <= maxLen then [curr] else []) +
    (if |curr| >= maxLen then [] else VisitFrom(pool, minLen, maxLen, curr, 0))
  }

  /** The subtrees of the children of `curr` for the tokens `pool[i..]`. */
  function VisitFrom(pool: seq<string>, minLen: int, maxLen: int, curr: string, i: nat): seq<string>
    requires NonEmptyTokens(pool) && i <= |pool|
    decreases maxLen - |curr|, |pool| - i
  {
    if i == |pool| then []
    else
      (if |curr| + |pool[i]| > maxLen then [] else Visit(pool, minLen, maxLen, curr + pool[i])) +
      VisitFrom(pool, minLen, maxLen, curr, i + 1)
  }

  /** The lines a whole run writes, in order. */
  function Lines(pool: seq<string>, minLen: int, maxLen: int): seq<string>
    requires NonEmptyTokens(pool)
  {
    Dedup(DropEmpty(Visit(pool, minLen, maxLen, [])))
  }

  /** A run of the generator: the pool and window it searches, the `seen`
      set, the two counters and the lines written so far. */
  class Generator {
    const pool: seq<string>
    const minLen: int
    const maxLen: int
    var seen: set<string>
    var written: nat
    var attempted: nat
    var output: seq<string>

    ghost predicate Valid()
      reads this
    {
      && NonEmptyTokens(pool)
      && seen == Elems(output)
      && NoDup(output)
      && written == |output|
      && written <= attempted
    }

    constructor (pool: seq<string>, minLen: int, maxLen: int)
      requires NonEmptyTokens(pool)
      ensures Valid()
      ensures this.pool == pool && this.minLen == minLen && this.maxLen == maxLen
      ensures output == [] && seen == {} && written == 0 && attempted == 0
    {
      this.pool := pool;
      this.minLen := minLen;
      this.maxLen := maxLen;
      seen := {};
      written := 0;
      attempted := 0;
      output := [];
    }

    /** The visit of one node: a node in the window counts as an attempt,
        and is written when it is non-empty and not yet seen. */
    method Attempt(curr: string)
      requires Valid()
      modifies this
      ensures Valid()
      ensures var here := if minLen <= |curr| <= maxLen then [curr] else [];
        && attempted == old(attempted) + |here|
        && output == old(output) + Fresh(DropEmpty(here), old(seen))
        && seen == old(seen) + Elems(DropEmpty(here))
    {
      ghost var here: seq<string> := if minLen <= |curr| <= maxLen then [curr] else [];
      if minLen <= |curr| <= maxLen {
        attempted := attempted + 1;
        if curr != [] && curr !in seen {
          output := output + [curr];
          seen := seen + {curr};
          written := written + 1;
        }
      }
      HeadStep(curr, here, old(output), old(seen), output, seen);
    }

    /** `dfs(curr)`: counts an attempt at a node in the window, writes the
        node if it is non-empty and unseen, and unless the node is at the
        maximum length descends into each token that still fits. */
    method Dfs(curr: string)
      requires Valid()
      modifies this
      decreases maxLen - |curr|, 1
      ensures Valid()
      ensures attempted == old(attempted) + |Visit(pool, minLen, maxLen, curr)|
      ensures output == old(output) + Fresh(DropEmpty(Visit(pool, minLen, maxLen, curr)), old(seen))
    {
      ghost var here: seq<string> := if minLen <= |curr| <= maxLen then [curr] else [];
      var curLen := |curr|;
      Attempt(curr);
      if curLen >= maxLen {
        assert Visit(pool, minLen, maxLen, curr) == here + [];
        return;
      }
      ghost var rest := VisitFrom(pool, minLen, maxLen, curr, 0);
      assert Visit(pool, minLen, maxLen, curr) == here + rest;
      SplitStep(here, rest, old(output), old(seen), output, seen);
      Children(curr);
    }

    /** The loop of `dfs(curr)` over the pool: the search below each token
        that keeps `curr` within the maximum length, in pool order. */
    method Children(curr: string)
      requires Valid()
      modifies this
      decreases maxLen - |curr|, 0
      ensures Valid()
      ensures attempted == old(attempted) + |VisitFrom(pool, minLen, maxLen, curr, 0)|
      ensures output == old(output) + Fresh(DropEmpty(VisitFrom(pool, minLen, maxLen, curr, 0)), old(seen))
    {
      var curLen := |curr|;
      var i := 0;
      while i < |pool|
        invariant 0 <= i <= |pool|
        invariant Valid()
        invariant attempted + |VisitFrom(pool, minLen, maxLen, curr, i)| ==
          old(attempted) + |VisitFrom(pool, minLen, maxLen, curr, 0)|
        invariant output + Fresh(DropEmpty(VisitFrom(pool, minLen, maxLen, curr, i)), seen) ==
          old(output) + Fresh(DropEmpty(VisitFrom(pool, minLen, maxLen, curr, 0)), old(seen))
      {
        var t := pool[i];
        ghost var before, seenBefore, triedBefore := output, seen, attempted;
        if curLen + |t| <= maxLen {
          Dfs(curr + t);
        }
        ChildStep(pool, minLen, maxLen, curr, i, before, seenBefore, triedBefore, output, seen, attempted);
        i := i + 1;
      }
      assert VisitFrom(pool, minLen, maxLen, curr, i) == [];
    }
  }

  /** The bookkeeping for one child: after the search below token `i` (or
      none, when that child is too long), what remains to be written is the
      fresh part of the later children. */
  lemma ChildStep(pool: seq<string>, minLen: int, maxLen: int, curr: string, i: nat,
                  out0: seq<string>, seen0: set<string>, tried0: nat,
                  out1: seq<string>, seen1: set<string>, tried1: nat)
    requires NonEmptyTokens(pool) && i < |pool|
    requires seen0 == Elems(out0) && seen1 == Elems(out1)
    requires |curr| + |pool[i]| <= maxLen ==>
      out1 == out0 + Fresh(DropEmpty(Visit(pool, minLen, maxLen, curr + pool[i])), seen0) &&
      tried1 == tried0 + |Visit(pool, minLen, maxLen, curr + pool[i])|
    requires |curr| + |pool[i]| > maxLen ==> out1 == out0 && tried1 == tried0
    ensures tried1 + |VisitFrom(pool, minLen, maxLen, curr, i + 1)| == tried0 + |VisitFrom(pool, minLen, maxLen, curr, i)|
    ensures out1 + Fresh(DropEmpty(VisitFrom(pool, minLen, maxLen, curr, i + 1)), seen1) ==
      out0 + Fresh(DropEmpty(VisitFrom(pool, minLen, maxLen, curr, i)), seen0)
  {
    var rest := VisitFrom(pool, minLen, maxLen, curr, i + 1);
    if |curr| + |pool[i]| <= maxLen {
      var sub := Visit(pool, minLen, maxLen, curr + pool[i]);
      assert VisitFrom(pool, minLen, maxLen, curr, i) == sub + rest;
      SplitStep(sub, rest, out0, seen0, out1, seen1);
    } else {
      assert seen1 == seen0;
      assert VisitFrom(pool, minLen, maxLen, curr, i) == [] + rest == rest;
    }
  }

  /** The bookkeeping for the node itself: the lines written for it are its
      fresh non-empty part, and `seen` has grown by that part. */
  lemma HeadStep(curr: string, here: seq<string>, out0: seq<string>, seen0: set<string>, out1: seq<string>, seen1: set<string>)
    requires here == [] || here == [curr]
    requires seen0 == Elems(out0)
    requires here != [] && curr != [] && curr !in seen0 ==> out1 == out0 + [curr] && seen1 == seen0 + {curr}
    requires !(here != [] && curr != [] && curr !in seen0) ==> out1 == out0 && seen1 == seen0
    ensures out1 == out0 + Fresh(DropEmpty(here), seen0)
    ensures seen1 == seen0 + Elems(DropEmpty(here))
  {
    if here != [] {
      assert here[1..] == [];
    }
  }

  /** Writing the fresh lines of `a` and then those of `b` writes the
      fresh lines of `a + b`. */
  lemma SplitStep(a: seq<string>, b: seq<string>, out0: seq<string>, seen0: set<string>, out1: seq<string>, seen1: set<string>)
    requires out1 == out0 + Fresh(DropEmpty(a), seen0)
    requires seen0 == Elems(out0) && seen1 == Elems(out1)
    ensures seen1 == seen0 + Elems(DropEmpty(a))
    ensures out1 + Fresh(DropEmpty(b), seen1) == out0 + Fresh(DropEmpty(a + b), seen0)
  {
    FreshProperties(DropEmpty(a), seen0);
    ElemsAppend(out0, Fresh(DropEmpty(a), seen0));
    DropEmptyAppend(a, b);
    FreshAppend(DropEmpty(a), DropEmpty(b), seen0);
  }

  /** A complete run from the empty string: the lines written are `Lines`,
      the `seen` set holds exactly them and has one element per written
      line, and the counters are the number of lines and of in-window
      nodes. */
  method Run(pool: seq<string>, minLen: int, maxLen: int)
    returns (lines: seq<string>, seen: set<string>, written: nat, attempted: nat)
    requires NonEmptyTokens(pool)
    ensures lines == Lines(pool, minLen, maxLen)
    ensures written == |lines| && attempted == |Visit(pool, minLen, maxLen, [])|
    ensures seen == Elems(lines) && |seen| == written
    ensures written <= attempted
  {
    var g := new Generator(pool, minLen, maxLen);
    g.Dfs([]);
    lines, seen, written, attempted := g.output, g.seen, g.written, g.attempted;
    NoDupCard(lines);
  }

  // ---------------------------------------------------------------------
  // Concatenations of pool tokens

  ghost predicate IsPath(pool: seq<string>, ks: seq<nat>)
  {
    forall j :: 0 <= j < |ks| ==> ks[j] < |pool|
  }

  /** The concatenation of the tokens `pool[ks[0]], pool[ks[1]], ...`. */
  function Join(pool: seq<string>, ks: seq<nat>): string
    requires forall j :: 0 <= j < |ks| ==> ks[j] < |pool|
  {
    if ks == [] then [] else Join(pool, ks[..|ks| - 1]) + pool[ks[|ks| - 1]]
  }

  /** `s` is a concatenation of one or more tokens of `pool`. */
  ghost predicate IsSequenceOf(pool: seq<string>, s: string)
  {
    exists ks :: |ks| >= 1 && IsPath(pool, ks) && Join(pool, ks) == s
  }

  lemma {:induction false} JoinAppend(pool: seq<string>, a: seq<nat>, b: seq<nat>)
    requires IsPath(pool, a) && IsPath(pool, b)
    ensures IsPath(pool, a + b)
    ensures Join(pool, a + b) == Join(pool, a) + Join(pool, b)
    decreases |b|
  {
    if b == [] {
      assert a + b == a;
    } else {
      var b' := b[..|b| - 1];
      assert (a + b)[..|a + b| - 1] == a + b';
      JoinAppend(pool, a, b');
    }
  }

  /** Every node the search reaches below `curr == Join(path)` lies in the
      window and is `curr` extended by zero or more tokens. */
  lemma {:induction false} VisitSound(pool: seq<string>, minLen: int, maxLen: int, curr: string, path: seq<nat>)
    requires NonEmptyTokens(pool) && IsPath(pool, path) && Join(pool, path) == curr
    ensures forall s :: s in Visit(pool, minLen, maxLen, curr) ==>
      minLen <= |s| <= maxLen && exists ks :: IsPath(pool, ks) && Join(pool, ks) == s
    decreases maxLen - |curr|, |pool| + 1
  {
    if |curr| < maxLen {
      VisitFromSound(pool, minLen, maxLen, curr, path, 0);
    }
  }

  lemma {:induction false} VisitFromSound(pool: seq<string>, minLen: int, maxLen: int, curr: string, path: seq<nat>, i: nat)
    requires NonEmptyTokens(pool) && IsPath(pool, path) && Join(pool, path) == curr && i <= |pool|
    ensures forall s :: s in VisitFrom(pool, minLen, maxLen, curr, i) ==>
      minLen <= |s| <= maxLen && exists ks :: IsPath(pool, ks) && Join(pool, ks) == s
    decreases maxLen - |curr|, |pool| - i
  {
    if i < |pool| {
      if |curr| + |pool[i]| <= maxLen {
        var child := path + [i];
        assert child[..|child| - 1] == path;
        VisitSound(pool, minLen, maxLen, curr + pool[i], child);
      }
      VisitFromSound(pool, minLen, maxLen, curr, path, i + 1);
    }
  }

  /** The subtree of every token from `i` on that fits is part of `VisitFrom(i)`. */
  lemma {:induction false} VisitFromContains(pool: seq<string>, minLen: int, maxLen: int, curr: string, i: nat, k: nat, s: string)
    requires NonEmptyTokens(pool) && i <= k < |pool| && |curr| + |pool[k]| <= maxLen
    requires s in Visit(pool, minLen, maxLen, curr + pool[k])
    ensures s in VisitFrom(pool, minLen, maxLen, curr, i)
    decreases k - i
  {
    if i < k {
      VisitFromContains(pool, minLen, maxLen, curr, i + 1, k, s);
    }
  }

  /** Every extension of `curr` by tokens whose length lies in the window is
      reached; no prefix of it is pruned, since each is no longer than it. */
  lemma {:induction false} VisitComplete(pool: seq<string>, minLen: int, maxLen: int, curr: string, r: seq<nat>)
    requires NonEmptyTokens(pool) && IsPath(pool, r)
    requires minLen <= |curr + Join(pool, r)| <= maxLen
    ensures curr + Join(pool, r) in Visit(pool, minLen, maxLen, curr)
    decreases |r|
  {
    if r == [] {
      assert curr + Join(pool, r) == curr;
    } else {
      var k := r[0];
      var child := curr + pool[k];
      JoinAppend(pool, [k], r[1..]);
      assert [k] + r[1..] == r;
      assert Join(pool, [k]) == Join(pool, []) + pool[k];
      assert curr + Join(pool, r) == child + Join(pool, r[1..]);
      VisitComplete(pool, minLen, maxLen, child, r[1..]);
      VisitFromContains(pool, minLen, maxLen, curr, 0, k, curr + Join(pool, r));
    }
  }

  /** The number of in-window nodes below a node of length `|curr|`,
      written as prefix sums of the counter's table: with `hi` the room left
      and `lo` the length still missing to the minimum, the count is
      `Prefix(hi) - Prefix(min(lo - 1, hi))`. */
  lemma {:induction false} VisitCount(pool: seq<string>, minLen: int, maxLen: int, curr: string)
    requires NonEmptyTokens(pool) && |curr| <= maxLen
    ensures var hi := maxLen - |curr|;
      var lo := minLen - |curr|;
      |Visit(pool, minLen, maxLen, curr)| ==
        Prefix(Lengths(pool), hi) - Prefix(Lengths(pool), if lo - 1 < hi then lo - 1 else hi)
    decreases maxLen - |curr|, |pool| + 1
  {
    var ls := Lengths(pool);
    var hi := maxLen - |curr|;
    var lo := minLen - |curr|;
    var m := if lo - 1 < hi then lo - 1 else hi;
    assert AllPositive(ls);
    if hi == 0 {
      assert Prefix(ls, 0) == 1;
      assert m >= 0 ==> m == 0;
    } else {
      VisitFromCount(pool, minLen, maxLen, curr, 0);
      assert ls[0..] == ls;
      PrefixRecurrence(ls, hi);
      if m >= 0 {
        PrefixRecurrence(ls, m);
      } else {
        SumPrefixBelowZero(ls, ls, m);
      }
    }
  }

  lemma {:induction false} VisitFromCount(pool: seq<string>, minLen: int, maxLen: int, curr: string, i: nat)
    requires NonEmptyTokens(pool) && |curr| <= maxLen && i <= |pool|
    ensures var hi := maxLen - |curr|;
      var lo := minLen - |curr|;
      var m := if lo - 1 < hi then lo - 1 else hi;
      |VisitFrom(pool, minLen, maxLen, curr, i)| ==
        SumPrefix(Lengths(pool), Lengths(pool)[i..], hi) - SumPrefix(Lengths(pool), Lengths(pool)[i..], m)
    decreases maxLen - |curr|, |pool| - i
  {
    var ls := Lengths(pool);
    if i < |pool| {
      var t := |pool[i]|;
      assert ls[i..][0] == t && ls[i..][1..] == ls[i + 1..];
      VisitFromCount(pool, minLen, maxLen, curr, i + 1);
      if |curr| + t <= maxLen {
        VisitCount(pool, minLen, maxLen, curr + pool[i]);
      }
    } else {
      assert ls[i..] == [];
    }
  }

  /** The whole search reaches exactly as many in-window nodes as the
      counter counts ordered token sequences in the window. */
  lemma VisitCountIsWindowTotal(pool: seq<string>, minLen: int, maxLen: int)
    requires NonEmptyTokens(pool)
    ensures |Visit(pool, minLen, maxLen, [])| == WindowTotal(Lengths(pool), minLen, maxLen)
  {
    if maxLen >= 0 {
      VisitCount(pool, minLen, maxLen, []);
      WindowTotalAsPrefixes(Lengths(pool), minLen, maxLen);
    }
  }

  /** Every line is a non-empty concatenation of pool tokens whose length
      lies in the window. */
  lemma LinesSound(pool: seq<string>, minLen: int, maxLen: int, s: string)
    requires NonEmptyTokens(pool) && s in Lines(pool, minLen, maxLen)
    ensures s != [] && minLen <= |s| <= maxLen && IsSequenceOf(pool, s)
  {
    var v := Visit(pool, minLen, maxLen, []);
    DedupProperties(DropEmpty(v));
    DropEmptyProperties(v);
    assert s in Elems(Lines(pool, minLen, maxLen));
    assert s in v by {
      assert s in Elems(v);
    }
    assert Join(pool, []) == [];
    VisitSound(pool, minLen, maxLen, [], []);
    var ks :| IsPath(pool, ks) && Join(pool, ks) == s;
    assert |ks| >= 1;
  }

  /** Every non-empty concatenation of pool tokens whose length lies in the
      window is a line. */
  lemma LinesComplete(pool: seq<string>, minLen: int, maxLen: int, s: string)
    requires NonEmptyTokens(pool)
    requires s != [] && minLen <= |s| <= maxLen && IsSequenceOf(pool, s)
    ensures s in Lines(pool, minLen, maxLen)
  {
    var v := Visit(pool, minLen, maxLen, []);
    var ks :| |ks| >= 1 && IsPath(pool, ks) && Join(pool, ks) == s;
    assert [] + Join(pool, ks) == s;
    VisitComplete(pool, minLen, maxLen, [], ks);
    DedupProperties(DropEmpty(v));
    DropEmptyProperties(v);
    assert s in Elems(v);
    assert s in Elems(Lines(pool, minLen, maxLen));
  }

  /** The lines of a run: no line twice; a string is written exactly when
      it is non-empty, its length lies in the window and it is a
      concatenation of pool tokens; and there are no more lines than
      attempts, which the counter counts. */
  lemma LinesProperties(pool: seq<string>, minLen: int, maxLen: int)
    requires NonEmptyTokens(pool)
    ensures NoDup(Lines(pool, minLen, maxLen))
    ensures forall s :: s in Lines(pool, minLen, maxLen) <==>
      s != [] && minLen <= |s| <= maxLen && IsSequenceOf(pool, s)
    ensures |Lines(pool, minLen, maxLen)| <= WindowTotal(Lengths(pool), minLen, maxLen)
  {
    var v := Visit(pool, minLen, maxLen, []);
    DedupProperties(DropEmpty(v));
    DropEmptyProperties(v);
    VisitCountIsWindowTotal(pool, minLen, maxLen);
    forall s ensures s in Lines(pool, minLen, maxLen) <==> s != [] && minLen <= |s| <= maxLen && IsSequenceOf(pool, s) {
      if s in Lines(pool, minLen, maxLen) {
        LinesSound(pool, minLen, maxLen, s);
      }
      if s != [] && minLen <= |s| <= maxLen && IsSequenceOf(pool, s) {
        LinesComplete(pool, minLen, maxLen, s);
      }
    }
  }

  /** When the in-window nodes are distinct and non-empty, the lines are
      those nodes in search order. */
  lemma {:induction false} LinesOfDistinct(pool: seq<string>, minLen: int, maxLen: int)
    requires NonEmptyTokens(pool)
    requires NoDup(Visit(pool, minLen, maxLen, []))
    requires forall k :: 0 <= k < |Visit(pool, minLen, maxLen, [])| ==> Visit(pool, minLen, maxLen, [])[k] != []
    ensures Lines(pool, minLen, maxLen) == Visit(pool, minLen, maxLen, [])
  {
    var v := Visit(pool, minLen, maxLen, []);
    DropEmptyOfNonEmpty(v);
    FreshOfNoDup(v, {});
  }

  /** A node at the maximum length is a leaf. */
  lemma VisitLeaf(pool: seq<string>, minLen: int, maxLen: int, w: string)
    requires NonEmptyTokens(pool) && minLen <= |w| == maxLen
    ensures Visit(pool, minLen, maxLen, w) == [w]
  {
    assert Visit(pool, minLen, maxLen, w) == [w] + [];
  }

  /** Below "a" (or "b") with pool ["a", "b"] and window [1, 2]. */
  lemma VisitTwoLettersBranch(c: string)
    requires c == "a" || c == "b"
    ensures Visit(["a", "b"], 1, 2, c) == [c, c + "a", c + "b"]
  {
    var pool := ["a", "b"];
    VisitLeaf(pool, 1, 2, c + "a");
    VisitLeaf(pool, 1, 2, c + "b");
    assert VisitFrom(pool, 1, 2, c, 2) == [];
    assert VisitFrom(pool, 1, 2, c, 1) == [c + "b"] + [];
    assert VisitFrom(pool, 1, 2, c, 0) == [c + "a"] + [c + "b"];
  }

  lemma VisitTwoLetters()
    ensures Visit(["a", "b"], 1, 2, []) == ["a", "aa", "ab", "b", "ba", "bb"]
  {
    var pool := ["a", "b"];
    var root: string := [];
    assert [] + "a" == "a" && [] + "b" == "b";
    VisitTwoLettersBranch("a");
    VisitTwoLettersBranch("b");
    assert "a" + "a" == "aa" && "a" + "b" == "ab" && "b" + "a" == "ba" && "b" + "b" == "bb";
    assert VisitFrom(pool, 1, 2, root, 2) == [];
    assert VisitFrom(pool, 1, 2, root, 1) == Visit(pool, 1, 2, "b") + [];
    assert VisitFrom(pool, 1, 2, root, 0) == Visit(pool, 1, 2, "a") + VisitFrom(pool, 1, 2, root, 1);
    assert Visit(pool, 1, 2, root) == [] + VisitFrom(pool, 1, 2, root, 0);
  }

  lemma TwoLettersDistinct(v: seq<string>)
    requires v == ["a", "aa", "ab", "b", "ba", "bb"]
    ensures NoDup(v)
  {
    forall i, j | 0 <= i < j < |v| ensures v[i] != v[j] {
      assert |v[i]| != |v[j]| || v[i][|v[i]| - 1] != v[j][|v[j]| - 1] || v[i][0] != v[j][0];
    }
  }

  /** Pool ["a", "b"] and window [1, 2]: the search writes a, aa, ab, b, ba,
      bb in this (depth-first) order and attempts six nodes. */
  lemma ExampleTwoLetters()
    ensures Lines(["a", "b"], 1, 2) == ["a", "aa", "ab", "b", "ba", "bb"]
    ensures |Visit(["a", "b"], 1, 2, [])| == 6
  {
    var v := ["a", "aa", "ab", "b", "ba", "bb"];
    VisitTwoLetters();
    TwoLettersDistinct(v);
    assert forall k :: 0 <= k < |v| ==> v[k] != [];
    LinesOfDistinct(["a", "b"], 1, 2);
  }

  lemma VisitOneTwelve()
    ensures Visit(["1", "12"], 2, 2, []) == ["11", "12"]
  {
    var pool := ["1", "12"];
    assert "1" + "1" == "11" && [] + "1" == "1" && [] + "12" == "12";
    VisitLeaf(pool, 2, 2, "11");
    VisitLeaf(pool, 2, 2, "12");
    assert VisitFrom(pool, 2, 2, "1", 2) == [];
    assert VisitFrom(pool, 2, 2, "1", 1) == [] + [];
    assert VisitFrom(pool, 2, 2, "1", 0) == ["11"] + [];
    assert Visit(pool, 2, 2, "1") == [] + ["11"];
    assert VisitFrom(pool, 2, 2, [], 2) == [];
    assert VisitFrom(pool, 2, 2, [], 1) == ["12"] + [];
    assert VisitFrom(pool, 2, 2, [], 0) == ["11"] + ["12"];
    assert Visit(pool, 2, 2, []) == [] + VisitFrom(pool, 2, 2, [], 0);
  }

  /** Pool ["1", "12"] and window [2, 2]: "11" and then "12"; "112" is pruned. */
  lemma ExampleOneTwelve()
    ensures Lines(["1", "12"], 2, 2) == ["11", "12"]
  {
    var v := ["11", "12"];
    VisitOneTwelve();
    assert v[0][1] != v[1][1];
    LinesOfDistinct(["1", "12"], 2, 2);
  }

  /** Window [0, 0]: the empty root is attempted but never written. */
  lemma ExampleEmptyWindow(pool: seq<string>)
    requires NonEmptyTokens(pool)
    ensures Lines(pool, 0, 0) == []
    ensures |Visit(pool, 0, 0, [])| == 1
  {
    assert Visit(pool, 0, 0, []) == [[]] + [];
    var root: seq<string> := [[]];
    assert DropEmpty(root) == DropEmpty(root[1..]) == [];
  }

  /** Pool ["ab"] and window [-1, 3]: the empty root and "ab" are
      attempted, "abab" is pruned, and "ab" is written. */
  lemma ExampleNegativeMin()
    ensures Lines(["ab"], -1, 3) == ["ab"]
    ensures |Visit(["ab"], -1, 3, [])| == 2
  {
    var pool := ["ab"];
    assert [] + "ab" == "ab";
    assert VisitFrom(pool, -1, 3, "ab", 1) == [];
    assert VisitFrom(pool, -1, 3, "ab", 0) == [] + [];
    assert Visit(pool, -1, 3, "ab") == ["ab"] + [];
    assert VisitFrom(pool, -1, 3, [], 1) == [];
    assert VisitFrom(pool, -1, 3, [], 0) == ["ab"] + [];
    var v: seq<string> := [[], "ab"];
    assert Visit(pool, -1, 3, []) == v;
    assert v[1..] == ["ab"] && ["ab"][1..] == [];
    assert DropEmpty(v) == ["ab"];
    assert Fresh(["ab"], {}) == ["ab"] + Fresh([], {"ab"});
  }
}
