/** The whole generation flow for parsed inputs: build the pool, stop when
    it cannot be built or nothing fits the window, otherwise run the search
    and report the lines, the two counters and the estimate. */
module Wordlist {
  import opened Seqs
  import opened Counter
  import opened Pool
  import opened Generation

  datatype Outcome =
    | Stopped(error: PoolError)
    | NothingToGenerate
    | Completed(lines: seq<string>, written: nat, attempted: nat, estimated: nat)

  /** What happens once the pool is built, given the estimate: stop when it
      is 0, otherwise the lines and the two counters of the search. */
  function AfterPool(tokens: seq<string>, minLen: int, maxLen: int, estimate: nat): Outcome
    requires NonEmptyTokens(tokens)
  {
    if estimate == 0 then NothingToGenerate
    else
      var lines := Lines(tokens, minLen, maxLen);
      Completed(lines, |lines|, |Visit(tokens, minLen, maxLen, [])|, estimate)
  }

  /** The outcome of a run. The estimate is the window count with the
      window clipped at length 0. */
  function WordlistOf(words: seq<string>, numbers: seq<string>, specials: seq<string>,
                      minLen: int, maxLen: int, caseExpand: bool): Outcome
  {
    match PoolOf(words, numbers, specials, caseExpand)
    case Refused(e) => Stopped(e)
    case Built(tokens, _) =>
      PoolShape(words, numbers, specials, caseExpand);
      AfterPool(tokens, minLen, maxLen, WindowTotal(Lengths(tokens), minLen, maxLen))
  }

  /** The outcome with the estimate as generatekey.py computes it, by the
      wrapping slice of `Counter.SliceTotal`. It differs from `WordlistOf`
      only for a negative minimum. */
  function WordlistAsWritten(words: seq<string>, numbers: seq<string>, specials: seq<string>,
                             minLen: int, maxLen: int, caseExpand: bool): (o: Outcome)
    ensures minLen >= 0 ==> o == WordlistOf(words, numbers, specials, minLen, maxLen, caseExpand)
  {
    match PoolOf(words, numbers, specials, caseExpand)
    case Refused(e) => Stopped(e)
    case Built(tokens, _) =>
      PoolShape(words, numbers, specials, caseExpand);
      AfterPool(tokens, minLen, maxLen, SliceTotal(Lengths(tokens), minLen, maxLen))
  }

  /** `generate_wordlist_ui` without its screen output: the pool, the
      estimate, and the search writing into the output sequence. */
  method GenerateWordlist(words: seq<string>, numbers: seq<string>, specials: seq<string>,
                          minLen: int, maxLen: int, caseExpand: bool) returns (o: Outcome)
    ensures o == WordlistOf(words, numbers, specials, minLen, maxLen, caseExpand)
  {
    var pool := BuildPool(words, numbers, specials, caseExpand);
    match pool
    case Refused(e) =>
      o := Stopped(e);
    case Built(tokens, _) =>
      PoolShape(words, numbers, specials, caseExpand);
      var estimate := CountInWindow(Lengths(tokens), minLen, maxLen);
      if estimate == 0 {
        o := NothingToGenerate;
      } else {
        var lines, _, written, attempted := Run(tokens, minLen, maxLen);
        o := Completed(lines, written, attempted, estimate);
      }
  }

  /** Why a run stops early: no non-empty input token, or no sequence of
      pool tokens whose length lies in the window. A pool with an empty
      token is never reported. */
  lemma StopReasons(words: seq<string>, numbers: seq<string>, specials: seq<string>,
                    minLen: int, maxLen: int, caseExpand: bool)
    ensures var o := WordlistOf(words, numbers, specials, minLen, maxLen, caseExpand);
      && (o == Stopped(NoTokens) <==> forall t :: t in words + numbers + specials ==> t == [])
      && o != Stopped(EmptyToken)
      && (o == NothingToGenerate <==>
            PoolOf(words, numbers, specials, caseExpand).Built? &&
            WindowTotal(Lengths(PoolOf(words, numbers, specials, caseExpand).tokens), minLen, maxLen) == 0)
  {
    PoolRefusal(words, numbers, specials, caseExpand);
  }

  /** Stopping for lack of combinations loses nothing: the search would not
      have written a single line. */
  lemma NothingToGenerateLosesNothing(words: seq<string>, numbers: seq<string>, specials: seq<string>,
                                      minLen: int, maxLen: int, caseExpand: bool)
    requires WordlistOf(words, numbers, specials, minLen, maxLen, caseExpand) == NothingToGenerate
    ensures var tokens := PoolOf(words, numbers, specials, caseExpand).tokens;
      NonEmptyTokens(tokens) && Lines(tokens, minLen, maxLen) == []
  {
    var tokens := PoolOf(words, numbers, specials, caseExpand).tokens;
    PoolShape(words, numbers, specials, caseExpand);
    LinesProperties(tokens, minLen, maxLen);
  }

  /** A completed run: every line once; a line is written exactly when it
      is a non-empty concatenation of pool tokens whose length lies in the
      window; `written` counts the lines; `attempted` equals the estimate,
      which for a non-negative minimum is also what the program's wrapping
      slice computes; and `written <= attempted`. */
  lemma CompletedRun(words: seq<string>, numbers: seq<string>, specials: seq<string>,
                     minLen: int, maxLen: int, caseExpand: bool)
    requires WordlistOf(words, numbers, specials, minLen, maxLen, caseExpand).Completed?
    ensures var o := WordlistOf(words, numbers, specials, minLen, maxLen, caseExpand);
      var tokens := PoolOf(words, numbers, specials, caseExpand).tokens;
      && NoDup(o.lines)
      && (forall s :: s in o.lines <==> s != [] && minLen <= |s| <= maxLen && IsSequenceOf(tokens, s))
      && o.written == |o.lines|
      && o.attempted == o.estimated == WindowTotal(Lengths(tokens), minLen, maxLen)
      && o.written <= o.attempted
      && (minLen >= 0 ==> o.attempted == SliceTotal(Lengths(tokens), minLen, maxLen))
  {
    var tokens := PoolOf(words, numbers, specials, caseExpand).tokens;
    PoolShape(words, numbers, specials, caseExpand);
    LinesProperties(tokens, minLen, maxLen);
    VisitCountIsWindowTotal(tokens, minLen, maxLen);
    if minLen >= 0 {
      SliceTotalIsWindowTotal(Lengths(tokens), minLen, maxLen);
    }
  }

  /** The word "ab" with the window [-1, 3]: as written, the program stops
      with no combination; the search would have written "ab" after two
      attempts, which the corrected estimate predicts. */
  lemma NegativeMinStopsEarly()
    ensures WordlistAsWritten(["ab"], [], [], -1, 3, false) == NothingToGenerate
    ensures WordlistOf(["ab"], [], [], -1, 3, false) == Completed(["ab"], 1, 2, 2)
  {
    var words: seq<string> := ["ab"];
    assert words + [] + [] == words;
    assert words[1..] == [];
    assert Originals(words, [], []) == ["ab"];
    assert Fresh(words, {}) == ["ab"] + Fresh([], {"ab"});
    assert PoolOf(words, [], [], false) == Built(["ab"], Info(["ab"], false));
    assert Lengths(["ab"]) == [2];
    NegativeMinUndercounts();
    ExampleNegativeMin();
  }
}
