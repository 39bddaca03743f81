# Wordlist engine of generatekey

`generatekey.py` builds a password-candidate wordlist from three lists of
user tokens (words, numbers, special characters) and a length window
`[min_len, max_len]`. This project models its engine in Dafny and proves
what the engine promises:

- **Token normalizer** (`parse_tokens`), module `Tokens`, over the ASCII
  string primitives of module `Ascii` (`strip`, `split`, `isalnum`,
  `lower`, `upper`, `title`). The input is blank; or a single
  whitespace-free run of two or more characters that is not purely
  alphanumeric (`!@#`, but also `omer!` or `19.90`), which is split into
  its characters; or anything else, which is split on whitespace.
- **Case variants** (`case_variants`), module `Casing`. The method builds
  the choice list, multiplies the running product against the cap of
  1024, and produces either the Cartesian product in `itertools.product`
  order or the four-casing fallback. Both are deduplicated in order.
- **Sequence counter** (`count_sequence_combinations`), module `Counter`.
  The dp table is filled in place in an `array`. The counter is modelled
  as written and with a corrected window (see Findings).
- **Pool building**, module `Pool`. Empty inputs are filtered out, tokens
  are expanded token by token, the expansion is deduplicated at first
  occurrence, and a pool with an empty token is refused.
- **Generator** (`dfs`), module `Generation`. A class holds the `seen`
  set, the `written` and `attempted` counters and the output file as a
  sequence of lines. The recursive method `Dfs` performs the depth-first
  search. Its loop over the pool is the method `Children`, which calls
  `Dfs` for each child that fits. Both are proved against `Visit`, the
  pre-order list of in-window nodes.
- **Flow** (`generate_wordlist_ui` without its screen output), module
  `Wordlist`. It builds the pool, stops with a reason or computes the
  estimate, and runs the search.

Module `Seqs` holds the shared first-occurrence deduplication (`Fresh`,
`Dedup`, and the loop `DedupInOrder` proved against them). The program
uses this pattern twice: once for variants and once for the pool.

The search writes its lines in depth-first pre-order. For the pool
`["a", "b"]` and window `[1, 2]` the order is a, aa, ab, b, ba, bb
(`Generation.ExampleTwoLetters`). Each line's extensions come right after
it, so the lines are not ordered level by level.

## Model

| member | source | states |
|---|---|---|
| Tokens.ParseTokensEmpty | generatekey.py:171-174 | the normalizer returns no tokens exactly when the input is empty or all whitespace |
| Tokens.ParseTokensCases | generatekey.py:171-178 | when the stripped input has no whitespace, has more than one character and is not alphanumeric, the result is its characters one by one; otherwise it is the whitespace split of the input |
| Tokens.ParseTokensContent | generatekey.py:171-178 | every token is non-empty and free of whitespace; the tokens concatenated give exactly the non-whitespace characters of the input, in order |
| Tokens.ParseTokensSingleWord | generatekey.py:175-178 | a single alphanumeric word, or a single character, stays one token equal to the stripped input |
| Tokens.ParseTokensTwoWords | generatekey.py:175-178 | two non-empty whitespace-free words joined by a space come back as those two tokens, not split into characters |
| Tokens.ExampleTwoWords | generatekey.py:175-178 | `"omer faruk"` gives `["omer", "faruk"]` |
| Ascii.StripProperties | generatekey.py:172 | `strip` leaves no whitespace at either end, is empty exactly for all-whitespace input, and keeps every non-whitespace character in order |
| Ascii.SplitProperties | generatekey.py:175 | `split()` gives non-empty whitespace-free parts whose concatenation is the non-whitespace characters of the input |
| Ascii.SplitAtSpace | generatekey.py:175 | `split()` at a whitespace character gives the parts before it followed by the parts after it, so a run of whitespace is one separator and parts are the maximal whitespace-free runs; with `SplitSingle` this fixes every split |
| Ascii.SplitStrip | generatekey.py:172-175 | splitting the stripped text gives the same parts as splitting the raw text |
| Ascii.SplitSingle | generatekey.py:176 | a stripped text splits into at most one part exactly when it has no whitespace, and then that part is the text itself |
| Ascii.CaseMapping | generatekey.py:183-184 | for a letter, `lower` and `upper` give a lower- and an upper-case letter that differ and fold the same; other characters pass through unchanged |
| Ascii.CaseMappingLength | generatekey.py:192 | `lower`, `upper` and `title` keep the length of the text |
| Casing.CaseVariants | generatekey.py:180-203 | the method's result is `Variants`: the in-order deduplicated product when the running product never exceeds the cap, the deduplicated four casings otherwise |
| Casing.CapExceededIff | generatekey.py:187-190 | the running product exceeds the cap at some character exactly when the token is non-empty and 2 to the number of its letters exceeds the cap |
| Casing.ProductMembership | generatekey.py:196 | a string is in the product exactly when it has one character per position, drawn from that position's choices |
| Casing.ProductNoDup | generatekey.py:196 | the product lists no string twice when each position's choices are distinct |
| Casing.ProductSize | generatekey.py:196 | the product of the choice list has 2 to the number of letters entries |
| Casing.VariantsBelowCap | generatekey.py:196-203 | below the cap the variants are distinct, they are exactly the strings that agree with the token except for the case of its letters, and there are 2 to the number of letters of them |
| Casing.VariantsAboveCap | generatekey.py:190-195 | above the cap the variants are the token, its lower-, upper- and title-case forms without repeats, the token first, one to four of them |
| Casing.VariantsLength | generatekey.py:180-203 | every variant is as long as its token |
| Seqs.DedupInOrder | generatekey.py:197-203 | the `seen`-set loop computes `Dedup`, the first-occurrence deduplication |
| Seqs.DedupProperties | generatekey.py:311-316 | deduplication lists no element twice, keeps exactly the distinct elements, never grows, and orders them by first occurrence |
| Counter.FillTable | generatekey.py:208-215 | the nested loops leave `dp[L]` equal to the value of the dp recurrence `Dp` at `L`, for every `L` up to `max_len`; for positive token lengths that is the number of search nodes of length `L` (`Generation.VisitCountIsWindowTotal`) |
| Counter.CountSequenceCombinations | generatekey.py:205-216 | the counter as written: 0 for a negative maximum or an empty window, otherwise the sum of `dp` over Python's slice `[min_len:max_len + 1]` |
| Counter.CountInWindow | generatekey.py:205-216 | the corrected counter: the sum of the dp recurrence over the window clipped at 0; for positive token lengths that is the number of in-window search nodes (`Generation.VisitCountIsWindowTotal`) |
| Counter.SliceTotalIsWindowTotal | generatekey.py:216 | with a non-negative minimum the program's slice sums exactly the window |
| Counter.NegativeMinUndercounts | generatekey.py:216 | with lengths [2] and window [-1, 3] the slice gives 0, while the window holds 2 sequences |
| Counter.SingleLengthWindow | generatekey.py:205-216 | one token of length l and the window [l, l] count exactly one sequence |
| Counter.EmptyStringWindow | generatekey.py:205-216 | the window [0, 0] counts only the empty sequence |
| Counter.PrefixRecurrence | generatekey.py:210-215 | with positive token lengths, the sequences of length at most n are the empty one plus, for each first token t, those of length at most n - t |
| Counter.WindowTotalAsPrefixes | generatekey.py:216 | the window count is a difference of two prefix sums of `dp` |
| Pool.BuildPool | generatekey.py:294-328 | the method's result is `PoolOf`: refused for no non-empty token or for an empty pool token, otherwise the deduplicated expansion and one report line per token |
| Pool.ExpandTokens | generatekey.py:301-305 | the case-expansion loop appends the variants of each token in token order and reports each token with its number of variants |
| Pool.ReportUnexpanded | generatekey.py:306-309 | without case expansion every token is reported with count 1, in order |
| Pool.OriginalsProperties | generatekey.py:294 | the filter keeps the input order and drops exactly the empty strings |
| Pool.ExpandAllMembership | generatekey.py:301-305 | the expansion holds exactly the variants of the input tokens, each as long as some input token |
| Pool.TokenIsVariant | generatekey.py:303 | every token is among its own variants |
| Pool.PoolRefusal | generatekey.py:294-328 | the flow is refused exactly when every input token is empty; the empty-token check never fires |
| Pool.PoolShape | generatekey.py:311-316 | the pool has no token twice and no empty token, it holds exactly the expanded tokens, and they come in first-occurrence order |
| Pool.PoolContent | generatekey.py:299-316 | without case expansion the pool is the set of non-empty input tokens; with it, exactly the variants of the input tokens; every input token is in the pool, and the pool is not empty |
| Pool.PoolReport | generatekey.py:299-309 | the report has one line per non-empty input token, in order, with its variant count (1 without case expansion) |
| Generation.Generator.constructor | generatekey.py:340-344 | a search starts with nothing seen, nothing written and no attempt |
| Generation.Generator.Attempt | generatekey.py:360-368 | a node in the window counts as one attempt, and it is written and added to `seen` only when it is non-empty and unseen |
| Generation.Generator.Dfs | generatekey.py:358-375 | `attempted` grows by the number of in-window nodes below `curr`; the output grows by the fresh non-empty ones in pre-order; `seen` stays the set of written lines, with no line twice and `written <= attempted` |
| Generation.Generator.Children | generatekey.py:371-375 | the loop over the pool adds, token by token in pool order, the attempts and the fresh non-empty lines of every child that fits within the maximum length, and keeps `Valid` |
| Generation.Run | generatekey.py:340-384 | a search from the empty string writes `Lines`; `seen` is exactly the set of written lines and has `written` elements; `written` is the number of lines and `attempted` is the number of in-window nodes, at least `written` |
| Generation.VisitSound | generatekey.py:358-375 | every node reached has a length in the window and is a concatenation of pool tokens |
| Generation.VisitComplete | generatekey.py:369-375 | every concatenation of pool tokens whose length lies in the window is reached, since pruning only cuts nodes longer than the maximum |
| Generation.VisitCountIsWindowTotal | generatekey.py:358-375 | the number of in-window nodes the search reaches equals the counter's window total |
| Generation.LinesProperties | generatekey.py:358-375 | the lines are distinct; a string is written exactly when it is non-empty, has a length in the window and is a concatenation of pool tokens; there are at most as many lines as the count estimate |
| Generation.ExampleTwoLetters | generatekey.py:358-375 | pool ["a", "b"] with window [1, 2] writes a, aa, ab, b, ba, bb in this order and attempts 6 nodes |
| Generation.ExampleOneTwelve | generatekey.py:371-375 | pool ["1", "12"] with window [2, 2] writes 11 then 12; "112" is pruned |
| Generation.ExampleNegativeMin | generatekey.py:358-375 | pool ["ab"] with window [-1, 3] attempts the empty root and "ab", prunes "abab", and writes "ab" |
| Generation.ExampleEmptyWindow | generatekey.py:361-363 | the window [0, 0] attempts the empty root once and writes nothing |
| Wordlist.GenerateWordlist | generatekey.py:294-384 | the flow's outcome is `WordlistOf`: stopped by the pool, stopped for no combination, or the lines and counters of the search with the estimate |
| Wordlist.WordlistAsWritten | generatekey.py:294-384 | the flow with the program's wrapping-slice estimate; for a non-negative minimum its outcome is that of `WordlistOf` |
| Wordlist.NegativeMinStopsEarly | generatekey.py:216 | for the word "ab" and window [-1, 3], the flow as written stops with no combination, while the search would write "ab" after 2 attempts, as the corrected flow reports |
| Wordlist.StopReasons | generatekey.py:294-334 | the flow stops for missing tokens exactly when every input is empty, never for an empty token, and for no combination exactly when the window count of the pool is 0 |
| Wordlist.NothingToGenerateLosesNothing | generatekey.py:330-334 | when the flow stops for no combination, the search would have written no line |
| Wordlist.CompletedRun | generatekey.py:330-384 | a finished flow writes distinct lines, exactly the non-empty in-window concatenations of pool tokens; `written` is their number, `attempted` equals the estimate (which for a non-negative minimum equals the program's slice sum), and `written <= attempted` |

## Left out

- The terminal interface is not part of this model: banner, boxes, colours, centring, the spinner, screen clearing and the prompts of `input_form`. The parsed token lists, the window and the case-expansion switch are parameters.
- Reading the window with `int(...)`, and its error exit, is not modelled. Any integers are accepted.
- File output is not modelled. The output file is the sequence `output`; the write, the `flush`, the byte size and the `format_mb` display are left out.
- Progress reporting is not modelled: `progress_line`, the clock, the percentage and the `writes_since` counter are I/O driven by time.
- `KeyboardInterrupt` and the other exception paths are not modelled. The `sys.exit` stops become the `Stopped` and `NothingToGenerate` outcomes.
- The variant report and the pool size are not printed. The report is part of `Pool.BuildPool`'s result (`PoolResult.Built`), and the pool size is the length of its tokens. Neither is carried into `Wordlist.Outcome`.
- Python's recursion depth limit is not modelled. A very large `max_len` can raise `RecursionError` in the program, but not in the model.
- Ascii.IsSpace: Unicode whitespace outside ASCII is not modelled. Whitespace is ASCII 9 to 13 and 28 to 32, as in Python for these code points.
- Ascii.LowerChar: case rules outside ASCII are not modelled. Here `isalpha`, `isalnum`, `lower`, `upper` and `title` act on ASCII letters only, and every other character counts as a non-letter.
- Wordlist.GenerateWordlist: computes the estimate with the corrected counter `Counter.CountInWindow`, not the wrapping slice (see Findings). For a non-negative minimum the two agree (`Counter.SliceTotalIsWindowTotal`).

## Findings

| source | as written | input that shows it | evidently intended | confidence | as-written member | corrected member |
|---|---|---|---|---|---|---|
| generatekey.py:216 | `sum(dp[min_len:max_len + 1])` uses Python slicing, so a negative `min_len` counts from the end of `dp` instead of from length 0; `min_len` is read with `int(...)` and never checked | one token of length 2 (lengths [2]), `min_len = -1`, `max_len = 3`: `dp == [1, 0, 1, 0]` and `dp[-1:4] == [0]`, so the count is 0 and the program stops with "no combinations" although the search would write the token | lengths below 0 contribute nothing, so the sum is over `dp[max(min_len, 0):max_len + 1]`, which is 2 here and equals the search's `attempted` | not executed | Counter.CountSequenceCombinations, Counter.NegativeMinUndercounts, Wordlist.WordlistAsWritten, Wordlist.NegativeMinStopsEarly | Counter.CountInWindow, Wordlist.GenerateWordlist, Wordlist.CompletedRun |
