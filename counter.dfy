/** The sequence counter: a dynamic-programming table over lengths whose
    window sum estimates the ordered token sequences with a total length in
    the window (for positive token lengths it is exactly the number of
    nodes the search attempts, `Generation.VisitCountIsWindowTotal`). */
module Counter {

  /** `dp[n]` as the program's recurrence defines it: `dp[0] == 1`, and
      `dp[n]` sums `dp[n - t]` over the token lengths `1 <= t <= n`. For
      positive lengths this is the number of ordered sequences of total
      length `n`; a zero length adds nothing (see `Term`). */
  function Dp(lengths: seq<nat>, n: nat): nat
    decreases n, 2, 0
  {
    if n == 0 then 1 else Step(lengths, lengths, n)
  }

  /** The inner loop's sum `s` over the token lengths in `part`. */
  function Step(lengths: seq<nat>, part: seq<nat>, n: nat): nat
    decreases n, 1, |part|
  {
    if part == [] then 0 else Term(lengths, part[0], n) + Step(lengths, part[1..], n)
  }

  /** The contribution of one token length `tl` to `dp[n]`. A length above
      `n` is skipped. A zero length reads `dp[n]` itself, which is still 0
      while `dp[n]` is being summed, so it contributes nothing. */
  function Term(lengths: seq<nat>, tl: nat, n: nat): nat
    decreases n, 0, 0
  {
    if tl == 0 || tl > n then 0 else Dp(lengths, n - tl)
  }

  /** The sum of `dp[lo..hi]`, both ends included. */
  function SumRange(lengths: seq<nat>, lo: nat, hi: int): nat
    decreases hi - lo
  {
    if lo > hi then 0 else Dp(lengths, lo) + SumRange(lengths, lo + 1, hi)
  }

  function SumSeq(s: seq<nat>): nat
  {
    if s == [] then 0 else s[0] + SumSeq(s[1..])
  }

  /** Where Python's slice `a[i:]` starts when `len(a) == n`: a negative `i`
      counts from the end. */
  function SliceStart(i: int, n: nat): nat
  {
    if i < 0 then (if i + n < 0 then 0 else i + n) else if i > n then n else i
  }

  /** What `count_sequence_combinations` returns: `sum(dp[min_len:max_len + 1])`,
      with Python's slice semantics. */
  function SliceTotal(lengths: seq<nat>, minLen: int, maxLen: int): nat
  {
    if maxLen < 0 then 0
    else if maxLen >= minLen then SumRange(lengths, SliceStart(minLen, maxLen + 1), maxLen)
    else 0
  }

  /** The sum of `dp` over the window `[minLen, maxLen]` clipped at 0:
      lengths below 0 do not exist. For positive token lengths this is the
      number of ordered sequences whose total length lies in the window. */
  function WindowTotal(lengths: seq<nat>, minLen: int, maxLen: int): nat
  {
    if maxLen < 0 || maxLen < minLen then 0
    else SumRange(lengths, if minLen < 0 then 0 else minLen, maxLen)
  }

  /** Fills `dp[0..maxLen]` as generatekey.py's nested loops do. */
  method FillTable(lengths: seq<nat>, maxLen: nat) returns (dp: array<nat>)
    ensures fresh(dp) && dp.Length == maxLen + 1
    ensures forall n :: 0 <= n <= maxLen ==> dp[n] == Dp(lengths, n)
  {
    dp := new nat[maxLen + 1](_ => 0);
    dp[0] := 1;
    var len := 1;
    while len <= maxLen
      invariant 1 <= len <= maxLen + 1
      invariant forall n :: 0 <= n < len ==> dp[n] == Dp(lengths, n)
      invariant forall n :: len <= n <= maxLen ==> dp[n] == 0
    {
      var s := 0;
      var k := 0;
      while k < |lengths|
        invariant 0 <= k <= |lengths|
        invariant s + Step(lengths, lengths[k..], len) == Dp(lengths, len)
      {
        var tl := lengths[k];
        assert lengths[k..][0] == tl && lengths[k..][1..] == lengths[k + 1..];
        if tl <= len {
          s := s + dp[len - tl];
        }
        k := k + 1;
      }
      assert lengths[k..] == [];
      dp[len] := s;
      len := len + 1;
    }
  }

  lemma {:induction false} SumSeqOfTable(table: seq<nat>, lengths: seq<nat>, lo: nat)
    requires lo <= |table|
    requires forall n :: 0 <= n < |table| ==> table[n] == Dp(lengths, n)
    ensures SumSeq(table[lo..]) == SumRange(lengths, lo, |table| - 1)
    decreases |table| - lo
  {
    if lo < |table| {
      assert table[lo..][1..] == table[lo + 1..];
      SumSeqOfTable(table, lengths, lo + 1);
    }
  }

  /** `count_sequence_combinations`, as written. */
  method CountSequenceCombinations(lengths: seq<nat>, minLen: int, maxLen: int) returns (total: nat)
    ensures total == SliceTotal(lengths, minLen, maxLen)
  {
    if maxLen < 0 {
      return 0;
    }
    var dp := FillTable(lengths, maxLen);
    if maxLen >= minLen {
      var start := SliceStart(minLen, maxLen + 1);
      SumSeqOfTable(dp[..], lengths, start);
      total := SumSeq(dp[start..]);
    } else {
      total := 0;
    }
  }

  /** The counter with the window clipped at length 0 instead of a wrapping
      slice start. */
  method CountInWindow(lengths: seq<nat>, minLen: int, maxLen: int) returns (total: nat)
    ensures total == WindowTotal(lengths, minLen, maxLen)
  {
    if maxLen < 0 {
      return 0;
    }
    var dp := FillTable(lengths, maxLen);
    if maxLen >= minLen {
      var start := if minLen < 0 then 0 else minLen;
      SumSeqOfTable(dp[..], lengths, start);
      total := SumSeq(dp[start..]);
    } else {
      total := 0;
    }
  }

  /** With a non-negative minimum the program's slice is the window itself. */
  lemma SliceTotalIsWindowTotal(lengths: seq<nat>, minLen: int, maxLen: int)
    requires minLen >= 0
    ensures SliceTotal(lengths, minLen, maxLen) == WindowTotal(lengths, minLen, maxLen)
  {
  }

  /** With a negative minimum the slice wraps around: for one token of
      length 2 and the window [-1, 3], `dp == [1, 0, 1, 0]` and
      `dp[-1:4] == [0]`, so the count is 0 although two sequences have a
      length in the window: the empty one and the token itself. */
  lemma NegativeMinUndercounts()
    ensures SliceTotal([2], -1, 3) == 0
    ensures WindowTotal([2], -1, 3) == 2
  {
    assert Dp([2], 1) == 0 by {
      assert Step([2], [2], 1) == Term([2], 2, 1) + Step([2], [], 1);
    }
    assert Dp([2], 2) == 1 by {
      assert Step([2], [2], 2) == Term([2], 2, 2) + Step([2], [], 2);
    }
    assert Dp([2], 3) == 0 by {
      assert Step([2], [2], 3) == Term([2], 2, 3) + Step([2], [], 3);
    }
    assert SumRange([2], 3, 3) == 0;
    assert SumRange([2], 2, 3) == 1;
    assert SumRange([2], 1, 3) == 1;
    assert SumRange([2], 0, 3) == 2;
  }

  /** One token of length l and the window [l, l]: exactly one sequence. */
  lemma SingleLengthWindow(l: nat)
    requires l >= 1
    ensures WindowTotal([l], l, l) == 1
    ensures SliceTotal([l], l, l) == 1
  {
    assert Dp([l], l) == 1 by {
      assert Step([l], [l], l) == Term([l], l, l) + Step([l], [], l);
    }
    assert SumRange([l], l, l) == Dp([l], l) + SumRange([l], l + 1, l);
  }

  /** The empty window [0, 0] holds the empty sequence only. */
  lemma EmptyStringWindow(lengths: seq<nat>)
    ensures WindowTotal(lengths, 0, 0) == 1
  {
    assert SumRange(lengths, 0, 0) == Dp(lengths, 0) + SumRange(lengths, 1, 0);
  }

  // ---------------------------------------------------------------------
  // Prefix sums of dp, and the recurrence they satisfy when every token
  // has a positive length.

  /** `dp[0] + ... + dp[n]`, and 0 for negative `n`. */
  function Prefix(lengths: seq<nat>, n: int): nat
    decreases n
  {
    if n < 0 then 0 else Prefix(lengths, n - 1) + Dp(lengths, n)
  }

  /** The sum, over the token lengths `t` in `part`, of `Prefix(n - t)`. */
  function SumPrefix(lengths: seq<nat>, part: seq<nat>, n: int): nat
  {
    if part == [] then 0 else Prefix(lengths, n - part[0]) + SumPrefix(lengths, part[1..], n)
  }

  /** `dp[n]` extended with 0 below 0. */
  function DpAt(lengths: seq<nat>, n: int): nat
  {
    if n < 0 then 0 else Dp(lengths, n)
  }

  function SumDpAt(lengths: seq<nat>, part: seq<nat>, n: int): nat
  {
    if part == [] then 0 else DpAt(lengths, n - part[0]) + SumDpAt(lengths, part[1..], n)
  }

  predicate AllPositive(lengths: seq<nat>)
  {
    forall i :: 0 <= i < |lengths| ==> lengths[i] >= 1
  }

  lemma {:induction false} StepIsSumDpAt(lengths: seq<nat>, part: seq<nat>, n: nat)
    requires AllPositive(part)
    ensures Step(lengths, part, n) == SumDpAt(lengths, part, n)
    decreases |part|
  {
    if part != [] {
      StepIsSumDpAt(lengths, part[1..], n);
    }
  }

  lemma {:induction false} SumPrefixSplit(lengths: seq<nat>, part: seq<nat>, n: int)
    ensures SumPrefix(lengths, part, n) == SumPrefix(lengths, part, n - 1) + SumDpAt(lengths, part, n)
    decreases |part|
  {
    if part != [] {
      SumPrefixSplit(lengths, part[1..], n);
    }
  }

  lemma {:induction false} SumPrefixBelowZero(lengths: seq<nat>, part: seq<nat>, n: int)
    requires AllPositive(part) && n <= 0
    ensures SumPrefix(lengths, part, n) == 0
    decreases |part|
  {
    if part != [] {
      SumPrefixBelowZero(lengths, part[1..], n);
    }
  }

  /** With positive token lengths, the sequences of total length at most n
      are the empty one plus, for each first token t, those of total length
      at most n - t. */
  lemma {:induction false} PrefixRecurrence(lengths: seq<nat>, n: nat)
    requires AllPositive(lengths)
    ensures Prefix(lengths, n) == 1 + SumPrefix(lengths, lengths, n)
    decreases n
  {
    if n == 0 {
      SumPrefixBelowZero(lengths, lengths, 0);
    } else {
      PrefixRecurrence(lengths, n - 1);
      SumPrefixSplit(lengths, lengths, n);
      StepIsSumDpAt(lengths, lengths, n);
    }
  }

  lemma {:induction false} SumRangeIsPrefixDifference(lengths: seq<nat>, lo: nat, hi: int)
    requires lo <= hi + 1
    ensures SumRange(lengths, lo, hi) == Prefix(lengths, hi) - Prefix(lengths, lo - 1)
    decreases hi - lo
  {
    if lo <= hi {
      SumRangeIsPrefixDifference(lengths, lo + 1, hi);
    }
  }

  /** The window count as a difference of prefix sums. */
  lemma WindowTotalAsPrefixes(lengths: seq<nat>, minLen: int, maxLen: int)
    requires maxLen >= 0
    ensures WindowTotal(lengths, minLen, maxLen) ==
      Prefix(lengths, maxLen) - Prefix(lengths, if minLen - 1 < maxLen then minLen - 1 else maxLen)
  {
    if maxLen >= minLen {
      SumRangeIsPrefixDifference(lengths, if minLen < 0 then 0 else minLen, maxLen);
    }
  }
}
