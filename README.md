# salamander-reloaded: a Dafny model of its computational core

salamander-reloaded is a Discord bot. Most of it is Discord, SQLite and
scheduling plumbing. Underneath that plumbing sit a few self-contained
pieces of logic, and this project models them and proves properties of
them:

- **The dice-expression engine** (`src/salamander/dicemath.py`). A text
  such as `4d6^3 + 2 - 1d4` is scanned term by term: a die group `NdS`, an
  optional keep suffix `vK` or `^K`, or a bare integer. The terms are built
  into an `Expression`, which keeps strict value/operator alternation and a
  budget of 1000 dice. The expression is then folded left to right to give
  a roll, a minimum, a maximum and an expected value. Exact binomial
  coefficients (`ncr`) feed the expected-value formulas.
- **The base2048 codec** (`src/salamander/base2048.py`). It turns bytes
  into text at eleven bits per character. The last one to three bits
  become one of eight tail characters. Decoding reverses this and checks
  every character.
- **The `LRU` cache** (`src/salamander/utils.py`). It is an
  insertion-ordered dictionary: a read moves the key to the recent end,
  and a write past `maxsize` evicts the oldest entry.
- **Small rules of the bot's views**: `parse_hour`/`en_hour_to_str` and
  the pager index arithmetic of reminders (`src/salamander/reminders.py`),
  the pager of notes (`src/salamander/notes.py`), and the time-zone
  autocomplete `closest_zones` (`src/salamander/settings_commands.py`).

Each source file keeps its own form:
- Objects whose fields the source updates become classes: `Expression`,
  `LRU` and `Peekable`.
- Loops become methods with invariants, each proved against a
  specification function: `ncr`, `fast_roll`, `from_str`, the folds,
  `encode`, `decode` and `_group_by_dice`.
- Straight-line rules become functions and lemmas.

Random draws are a parameter. A die group receives the outcomes of its
dice in the order `random.choices` would yield them. The base2048 lookup
tables are parameters too: `enc` has 2048 characters and `dec` has 4340
entries. The predicate `Tables` states the inverse property the source's
resource file provides.

Files, one Dafny module each:

| file | module | models |
|---|---|---|
| wrappers.dfy | Wrappers | `Option` and `Result` (raised exceptions) |
| arith.dfy | Arith | Euclidean division facts |
| text.dfy | Text | `str.strip`, decimal numerals, ASCII lowercasing |
| sorting.dfy | Sorting | `list.sort`, `sum` |
| binomial.dfy | Binomial | `ncr` |
| dice_ev.dfy | DiceEv | expected-value formulas, over reals |
| dice_group.dfy | DiceGroups | `NumberofDice`, `fast_roll`, the `DiceError` classes |
| dice_scanner.dfy | DiceScanner | `DIE_COMPONENT_RE` and `_try_die_or_int` |
| dice_expression.dfy | Expressions | `Expression` and its folds, `_group_by_dice` |
| expression_parser.dfy | ExpressionParser | `Expression.from_str` |
| bits.dfy | Bits | `<<`, `>>`, `&` masks and `\|` on naturals; bit strings |
| base2048.dfy | Base2048 | `Peekable`, `TAIL`, `ZERO_SET`, `encode`, `decode` |
| base2048_roundtrip.dfy | Base2048RoundTrip | `decode(encode(b)) == b` |
| base2048_errors.dfy | Base2048Errors | the texts `decode` rejects |
| lru.dfy | Lru | `LRU` |
| reminders.dfy | Reminders | `parse_hour`, `en_hour_to_str`, `ReminderView.index_setup` |
| notes.dfy | Notes | `NotesView.index_setup` |
| zones.dfy | Zones | `closest_zones` |

## Behaviour worth knowing

- **`from_str` never reports `TooManyKept`.** `NumberofDice` raises
  `TooManyKept` for a text such as `3d6v5`, and the scanner passes it on
  (`DiceScanner.ScanTooManyKept`). `from_str` catches every `DiceError`
  around the scan and re-raises it as `ExpectedNumberOrDie`, so parsing a
  whole expression reports that instead (`ExpressionParser.ParseErrors`).
- **`parse_hour` folds case only in its am/pm test.** The 12-hour branch
  is entered only when the text ends in a lower-case `m`, and the
  conversion compares case-sensitively:
  - `5PM` never reaches that branch; `int("5PM")` fails, giving `None`;
  - `5Pm` gives 5 (no `+ 12`);
  - `12Am` gives 12.

  See `Reminders.UpperCaseRejected`, `MixedCasePm` and `MixedCaseAm`.
- **`NdS^N` rolls 0.** Keeping the N highest of N dice sets `keep_high = N`
  and `keep_low = 0`, so `roll` sums the empty slice `[0:0]`. Yet `low`
  and `high` report N and N·S (`DiceGroups.KeepAllHighestRollsZero`,
  `Expressions.KeepAllHighestBelowMin`). The roll bounds are proved for
  every other group.

## Model

| member | source | states |
|---|---|---|
| Binomial.Ncr | src/salamander/dicemath.py:19-29 | `ncr(n, r)` is exactly the binomial coefficient C(n, r), defined independently by Pascal's rule. It is positive iff 0 <= r <= n, and 0 otherwise. The accumulator loop's floor division is exact at every step. |
| Binomial.ChooseSymmetric | src/salamander/dicemath.py:24 | C(n, r) == C(n, n - r). This is why swapping `r` for `n - r` on line 24 does not change the result. |
| Binomial.ChoosePositive | src/salamander/dicemath.py:21-29 | C(n, r) > 0 exactly when 0 <= r <= n. |
| Binomial.AbsorbLeft | src/salamander/dicemath.py:25-27 | k·C(n, k) == n·C(n-1, k-1). This is the step of the `ntok`/`rtok` products. |
| Binomial.AbsorbRight | src/salamander/dicemath.py:25-27 | (n-k)·C(n, k) == n·C(n-1, k). |
| Binomial.ChooseStep | src/salamander/dicemath.py:25-28 | (t+1)·C(n, t+1) == (n-t)·C(n, t). One loop pass multiplies the running coefficient by (n-t)/(t+1). |
| Binomial.ExactDivision | src/salamander/dicemath.py:28 | `ntok // rtok` has no remainder once `ntok == c * rtok`. |
| DiceGroups.MakeDieGroup | src/salamander/dicemath.py:149-173 | `NumberofDice(...)` raises `TooManyKept` iff a keep count exceeds the quantity. Otherwise the group is valid and holds the matched fields. |
| DiceGroups.DieGroup.Low | src/salamander/dicemath.py:187-191 | `low` is the number of kept dice: the quantity when unfiltered, else the keep count. |
| DiceGroups.DieGroup.High | src/salamander/dicemath.py:181-185 | `high` is the number of kept dice times the sides. |
| DiceGroups.FastRoll | src/salamander/dicemath.py:142-145 | `fast_roll` returns the sum of the slice `[low:high]` of the sorted outcomes. The sort is an in-place array sort. |
| DiceGroups.Roll | src/salamander/dicemath.py:232-240 | `NumberofDice.roll` returns the kept sum: the sorted slice its keep filter selects. |
| DiceGroups.VerboseRoll | src/salamander/dicemath.py:198-209 | `verbose_roll` returns the same kept sum as `roll`. It shows the outcomes unsorted when unfiltered and sorted otherwise. |
| DiceGroups.UnfilteredSum | src/salamander/dicemath.py:200-201 | Without a keep filter, the kept sum is the sum of all outcomes. |
| DiceGroups.FilteredSlice | src/salamander/dicemath.py:198-240 | `numbers[-keep_high:]` or `numbers[:keep_low]` in `verbose_roll` is the slice `[low:high]` that `roll` passes to `fast_roll`. |
| DiceGroups.SortedOutcomes | src/salamander/dicemath.py:143-144 | Sorting keeps every outcome in [1, sides]. |
| DiceGroups.KeptSumBounds | src/salamander/dicemath.py:181-240 | For in-range outcomes, the kept sum lies in [`low`, `high`] for every group except `NdS^N`. |
| DiceGroups.KeepAllHighestRollsZero | src/salamander/dicemath.py:159-240 | `NdS^N` rolls 0, which is below its `low`. |
| DiceGroups.DieGroup.RollSlice | src/salamander/dicemath.py:232-238 | The bounds `roll` passes to `fast_roll` select exactly the kept dice from the sorted outcomes: from the top for `^K`, from the bottom for `vK`, all of them when unfiltered. `NdS^N` is the exception and gets the empty slice. |
| DiceEv.KeepWorstComplement | src/salamander/dicemath.py:39-64 | The keep-worst sum for K dice equals the keep-best sum over all the dice minus the keep-best sum for the other quant - K. The two formulas add up the same terms from opposite ends. |
| DiceGroups.EvDispatch | src/salamander/dicemath.py:133-139 | `get_ev` (lines 193-196) dispatches through `fast_analytic_ev` as follows: keep-best when `keep_high < quant`, keep-worst when `keep_low` is non-zero, and the closed form `quant*(sides+1)/2` otherwise. |
| DiceScanner.DigitRun | src/salamander/dicemath.py:91 | Greedy `[0-9]{0,max}`: a run of digits that stops at a non-digit or at `max`. |
| DiceScanner.LeadRun | src/salamander/dicemath.py:88-92 | Greedy `[1-9][0-9]{0,max-1}`: empty iff the text does not start with 1-9. Otherwise a canonical numeral without a leading zero. |
| DiceScanner.SidesRun | src/salamander/dicemath.py:90 | `(?:100)\|(?:[1-9][0-9]?)`: the sides numeral is canonical and lies in 1..100. |
| DiceScanner.SidesRunShape | src/salamander/dicemath.py:90 | The sides field is present iff the text starts with 1-9. `100` is taken whenever the text starts with it, and it is the only three-digit field. |
| DiceScanner.MatchKeep | src/salamander/dicemath.py:91 | The optional `[v^][1-9][0-9]{0,2}` suffix. What it matches, written back, is a prefix of the text, and its count is 1..999. |
| DiceScanner.MatchDie | src/salamander/dicemath.py:88-92 | A die match has quantity 1..99, sides 1..100 and keep count 1..999. Its fields, written back, are the consumed prefix. |
| DiceScanner.TryDieOrInt | src/salamander/dicemath.py:243-250 | `_try_die_or_int` consumes a non-empty prefix that is exactly the scanned term's text, and the term is in range. It fails with a bare `DiceError` iff the text does not start with 1-9. It fails with `TooManyKept` iff the die pattern matches with a keep count above the quantity. The die pattern wins over the integer pattern. |
| DiceScanner.ScanGreedySides | src/salamander/dicemath.py:90 | `3d1000` scans as three hundred-sided dice followed by the text `0`. |
| DiceScanner.ScanTooManyKept | src/salamander/dicemath.py:243-245 | `3d6v5` raises `TooManyKept`. |
| DiceScanner.ScanRejects | src/salamander/dicemath.py:243-250 | `0` and `d6` match neither pattern and raise a bare `DiceError`. |
| DiceScanner.ScanTerm | src/salamander/dicemath.py:243-250 | Scanning the text of any in-range term, followed by a separator, gives back that term and the rest. |
| DiceScanner.LiteralScanned | src/salamander/dicemath.py:247-248 | A bare integer 1..999 scans as itself. |
| DiceScanner.DieScanned | src/salamander/dicemath.py:243-250 | `str(die)` scans back to the same die group. |
| DiceScanner.DieTextInjective | src/salamander/dicemath.py:178-179 | `str(die)` tells die groups apart: two groups in scanner range that print alike are equal. |
| DiceScanner.KeepScanned | src/salamander/dicemath.py:88-92 | `_kd_expr` scans back to the same keep filter. |
| DiceScanner.TermTextEnds | src/salamander/dicemath.py:253-254 | A term's text starts and ends with a digit. |
| Expressions.Expression.constructor | src/salamander/dicemath.py:258-260 | A new expression is empty, with no dice. |
| Expressions.Expression.AddDice | src/salamander/dicemath.py:270-280 | `add_dice` has three outcomes. On an odd-length list it raises `ExpectedOperator(str(self))`. It raises `TooManyDice` when the total would pass 1000. Otherwise it appends the value. Every error leaves the list and the counter unchanged, and the alternation/counter invariant is preserved. |
| Expressions.Expression.AddOperator | src/salamander/dicemath.py:282-286 | `add_operator` raises `ExpectedNumberOrDie(str(self))` iff the list has even length, leaving it unchanged. Otherwise it appends the operator. |
| Expressions.Expression.GetMin | src/salamander/dicemath.py:418-437 | `get_min` raises `IncompleteExpression` on an even-length list. Otherwise it returns the left fold that uses `high` under `-` and `low` otherwise. |
| Expressions.Expression.GetMax | src/salamander/dicemath.py:439-458 | `get_max` raises `IncompleteExpression` on an even-length list. Otherwise it returns the fold that uses `low` under `-` and `high` otherwise. |
| Expressions.Expression.Roll | src/salamander/dicemath.py:402-416 | `roll` raises `IncompleteExpression` on an even-length list. Otherwise it returns the left fold of literals and kept sums. |
| Expressions.Expression.GetEv | src/salamander/dicemath.py:490-506 | `get_ev` raises `IncompleteExpression` on an even-length list. Otherwise it returns the fold of literals and group expected values. |
| Expressions.MinLeMax | src/salamander/dicemath.py:418-458 | For valid groups, `get_min <= get_max`. |
| Expressions.RollWithinBounds | src/salamander/dicemath.py:402-458 | With in-range outcomes and no `NdS^N` group, `get_min <= roll <= get_max`. |
| Expressions.KeepAllHighestBelowMin | src/salamander/dicemath.py:402-437 | The expression `NdS^N` rolls 0, which is below its `get_min` of N. |
| Expressions.LowLeHigh | src/salamander/dicemath.py:181-191 | For a valid group, 1 <= `low` <= `high`. |
| Expressions.DiceCountAppend | src/salamander/dicemath.py:274-278 | Appending a value adds its dice to the count. |
| Expressions.GroupByDice | src/salamander/dicemath.py:288-297 | `_group_by_dice` returns at least one group, and concatenated they give back the component list. Every group after the first starts with a die group, and no die group appears later in a group. Groups are non-empty when the list is. |
| Expressions.FlattenAppend | src/salamander/dicemath.py:294-297 | Concatenating one more group extends the flattened list by it. |
| ExpressionParser.FromStr | src/salamander/dicemath.py:461-488 | `from_str` returns a fresh, valid `Expression` whose components are the reference parse of the text. It fails exactly when that parse fails, with the same error. |
| ExpressionParser.ParseErrors | src/salamander/dicemath.py:465-484 | `from_str` raises only `ExpectedNumberOrDie`, `IncompleteExpression` or `TooManyDice`. It never raises `ExpectedOperator`, `TooManyKept` or a bare `DiceError`. |
| ExpressionParser.ParseBlank | src/salamander/dicemath.py:465-484 | An empty or all-whitespace text raises `IncompleteExpression`. |
| ExpressionParser.ReadEnd | src/salamander/dicemath.py:465-488 | Once something is read, the end of the text succeeds, even after a trailing operator. |
| ExpressionParser.ParseWellFormed | src/salamander/dicemath.py:461-488 | Whatever `from_str` builds alternates, has valid groups and at most 1000 dice, and extends what was read before. |
| ExpressionParser.RoundTrip | src/salamander/dicemath.py:461-488 | For a well-formed component list, `from_str(str(e))` rebuilds the same components. |
| ExpressionParser.ShowInjective | src/salamander/dicemath.py:253-268 | `str(e)` determines the components of a well-formed expression: two that print alike are equal. |
| ExpressionParser.OperatorStep | src/salamander/dicemath.py:466-470 | A `+` or `-` where an operator is expected is consumed as that operator. |
| ExpressionParser.TermStep | src/salamander/dicemath.py:475-479 | A scanned term within the dice budget is appended, and reading continues after it. |
| Text.StripLeading | src/salamander/dicemath.py:465 | `lstrip` drops exactly the leading whitespace. |
| Text.StripTrailing | src/salamander/dicemath.py:465 | `rstrip` drops exactly the trailing whitespace. |
| Text.StripIdempotent | src/salamander/dicemath.py:465 | Stripping twice is stripping once. |
| Text.StripInfix | src/salamander/dicemath.py:465 | `strip()` returns the infix of the text left once a run of whitespace is cut from each end, and the result neither starts nor ends with whitespace. |
| Text.NatToStringValue | src/salamander/dicemath.py:178-179 | `int(str(n)) == n`. |
| Text.CanonicalRoundTrip | src/salamander/dicemath.py:247-248 | `str(int(s)) == s` for a numeral without a leading zero. |
| Text.NatToStringLength | src/salamander/dicemath.py:90-91 | The numeral of n has at most k digits iff n < 10^k. |
| Sorting.Sort | src/salamander/dicemath.py:144 | The reference sort is sorted and a permutation of its input. |
| Sorting.SortInPlace | src/salamander/dicemath.py:144 | `numbers.sort()` in place leaves the array equal to the reference sort of its old contents. |
| Sorting.SortedUnique | src/salamander/dicemath.py:144 | Two sorted permutations of one multiset are equal, so the sort is determined by its input. |
| Sorting.SumPermutation | src/salamander/dicemath.py:142-145 | `sum` does not depend on the order of the outcomes. |
| Sorting.SumBounds | src/salamander/dicemath.py:145 | A sum of values in [lo, hi] lies in [len·lo, len·hi]. |
| Base2048.Peekable.constructor | src/salamander/base2048.py:34-36 | A new `Peekable` will yield exactly the wrapped items. |
| Base2048.Peekable.Peek | src/salamander/base2048.py:48-51 | `peek` returns the next item, or `StopIteration` as `None`, without consuming anything. |
| Base2048.Peekable.HasMore | src/salamander/base2048.py:41-46 | `has_more` is true iff items remain, and consumes nothing. |
| Base2048.Peekable.Next | src/salamander/base2048.py:53-56 | `__next__` returns the first remaining item (the peeked one, if any) and consumes exactly it. On an exhausted iterator it returns `None`. |
| Base2048.ZeroSetTables | src/salamander/base2048.py:61 | With agreeing tables, `ZERO_SET` contains all eight tail characters and no digit character, which is what lets `decode` tell the two kinds apart. |
| Base2048.IndexOf | src/salamander/base2048.py:115-118 | `TAIL.index(c)` is the first position of `c`, or `ValueError` when `c` is absent. |
| Base2048.TailIndex | src/salamander/base2048.py:114-118 | Each tail character is found at its own index and is a code point below 4340. |
| Base2048.EncodeSpec | src/salamander/base2048.py:68-88 | The reference output has ⌈8·len(bys)/11⌉ characters. |
| Base2048.Emit | src/salamander/base2048.py:73-85 | A bit string of length n gives ⌈n/11⌉ characters: one per 11 bits, and the last one to three bits become a tail character. |
| Base2048.Encode | src/salamander/base2048.py:68-88 | `encode` returns the reference text. The loop keeps `remaining <= 11` and `stage < 2**remaining`, and the output so far plus what the staged bits and remaining bytes make is the whole reference text. |
| Base2048.FlushKeeps | src/salamander/base2048.py:75-79 | A flush step emits an index below 2048 and keeps the loop invariant. |
| Base2048.ShiftKeeps | src/salamander/base2048.py:80-82 | A shift step keeps the loop invariant. |
| Base2048.FlushValues | src/salamander/base2048.py:76-79 | `(stage << need) \| (byte >> remaining)` is the staged bits followed by the byte's top bits, and is below 2048. `byte & mask` keeps the byte's low bits. |
| Base2048.LastChar | src/salamander/base2048.py:84-85 | After the loop, the last character is `TAIL[stage]` when 1-3 bits remain (`stage < 8`) and `_ENC_TABLE[stage]` otherwise (`stage < 2048`). Nothing is written when no bits remain. |
| Base2048.Drain | src/salamander/base2048.py:133-136 | The inner drain leaves at most 8 bits staged and only appends to `ret`. |
| Base2048.Advance | src/salamander/base2048.py:131-136 | Staging new bits and draining leaves at most 8 bits, with the residue unchanged. |
| Base2048.Step | src/salamander/base2048.py:98-136 | A successful loop pass leaves at most 8 bits staged. |
| Base2048.PackFails | src/salamander/base2048.py:141 | `bytes(ret)` fails iff some value is 256 or more. |
| Base2048.Decode | src/salamander/base2048.py:91-141 | `decode` returns or raises exactly what the reference decoding does. The loop keeps at most 8 bits staged and `residue == ResidueAt(k)` before position k. |
| Base2048.DecodePass | src/salamander/base2048.py:98-136 | One loop pass is exactly `Step`, or the error `Step` raises, and advances the residue by 11 mod 8. |
| Base2048.CharBits | src/salamander/base2048.py:100-129 | The checks and the lookup for one character, using the look-ahead, are `NewBits`. The look-ahead consumes nothing. |
| Base2048.StageBits | src/salamander/base2048.py:131-136 | Staging the new bits and the `while remaining > 8` loop give `Advance`. |
| Base2048.FlushStage | src/salamander/base2048.py:138-141 | The final flush and `bytes(ret)` give `Finish`. |
| Base2048.ResidueValue | src/salamander/base2048.py:96-99 | Before the k-th character, `residue == 11·k mod 8`. |
| Base2048.StepFails | src/salamander/base2048.py:100-126 | A loop pass raises exactly when the character checks fail. |
| Base2048.StepSucceeds | src/salamander/base2048.py:127-136 | Otherwise the pass stages the new bits and drains whole bytes. |
| Base2048RoundTrip.RoundTrip | src/salamander/base2048.py:68-141 | With inverse tables, `decode(encode(b)) == b` for every byte string. |
| Base2048RoundTrip.DecodeEmitted | src/salamander/base2048.py:91-141 | Decoding the text for a bit string, from a state consistent with it, gives the bytes that the staged bits followed by that bit string make. |
| Base2048RoundTrip.UnbitsOfBytes | src/salamander/base2048.py:73-82 | Regrouping the bits of a byte string into bytes gives it back. |
| Base2048RoundTrip.DrainKeeps | src/salamander/base2048.py:133-136 | The drain moves whole bytes from the stage to `ret` without changing the byte stream they stand for. |
| Base2048RoundTrip.FirstStep | src/salamander/base2048.py:98-136 | The decoder reads back the first character the encoder wrote, whether tail or digit, as exactly the bits it carries. |
| Base2048RoundTrip.TailDecodes | src/salamander/base2048.py:108-126 | A last tail character whose index fits in the bits the last byte needs contributes those bits. |
| Base2048RoundTrip.DigitDecodes | src/salamander/base2048.py:127-129 | A digit contributes 11 bits, or `11 - residue` when it is the last character. |
| Base2048RoundTrip.AdvanceKeeps | src/salamander/base2048.py:131-136 | After one character, the decoder's state is still consistent with the rest of the bits. |
| Base2048RoundTrip.FinishBits | src/salamander/base2048.py:138-141 | The final flush emits the last staged byte. |
| Base2048Errors.DecodeRejects | src/salamander/base2048.py:101-118 | `decode` raises when a character has a code point over 4339. It also raises for a zero-set character with a character after it, or one not in `TAIL`. |
| Base2048Errors.RejectsFrom | src/salamander/base2048.py:98-126 | Such a character anywhere ahead makes the rest of the decoding fail. |
| Base2048Errors.TailOverflows | src/salamander/base2048.py:119-126 | A tail index of at least 2^(8 - remaining) raises `InvalidTail` at its position. |
| Base2048Errors.OverlongDigit | src/salamander/base2048.py:127-141 | A last digit that carries more bits than fit in a byte makes a value over 255, which `bytes(ret)` rejects. The one-character text of digit 2047 is an example. |
| Lru.LRU.constructor | src/salamander/utils.py:34-36 | A new cache is empty, with the given `maxsize`. |
| Lru.LRU.Get | src/salamander/utils.py:38-42 | `get` on a missing key returns the default and changes nothing. On a present key it returns the stored value and moves the key to the recent end. The contents are unchanged. |
| Lru.LRU.GetItem | src/salamander/utils.py:44-46 | `__getitem__` behaves like `get` on a present key, and raises `KeyError` on a missing one with nothing changed. |
| Lru.LRU.SetItem | src/salamander/utils.py:48-51 | `__setitem__` updates an existing key in place or appends a new key at the recent end. Past `maxsize` it evicts exactly the oldest key. Keys stay unique and the size stays within `maxsize`. |
| Lru.LRU.Remove | src/salamander/utils.py:53-54 | `remove` deletes only the given key, and a missing key is no error. |
| Lru.RemoveIdempotent | src/salamander/utils.py:53-54 | Removing a key twice is removing it once. |
| Lru.MoveToEndOrder | src/salamander/utils.py:41-45 | Moving a key to the end keeps the others in order, keys unique and the size unchanged. |
| Lru.WithoutUnique | src/salamander/utils.py:48-54 | Dropping a key keeps keys unique and shrinks the size by one when the key was present. |
| Lru.WithoutAbsent | src/salamander/utils.py:54 | Dropping a missing key changes nothing. |
| Lru.WithoutAppend | src/salamander/utils.py:41-45 | Taking a freshly appended key off again restores the order. |
| Reminders.ParseHour | src/salamander/reminders.py:196-224 | `parse_hour` returns an hour in 0..23 or `None`, and `None` for a text that is empty once spaces are removed. |
| Reminders.RemoveSpaces | src/salamander/reminders.py:197 | `replace(" ", "")` leaves no space. |
| Reminders.RemoveSpacesAppend | src/salamander/reminders.py:197 | Spaces are removed piecewise: removing them from `a + b` is removing them from `a` and from `b`, so the other characters keep their order. |
| Reminders.RemoveSpacesCounts | src/salamander/reminders.py:197 | Every character other than a space occurs as often as before. |
| Reminders.ParseIntRoundTrip | src/salamander/reminders.py:207-210 | `int(str(i)) == i` for every integer, and `int` also accepts a leading `+`. |
| Reminders.TwelveHourTooLong | src/salamander/reminders.py:201-206 | A text ending in `m` that is longer than four characters once spaces are removed gives `None`. |
| Reminders.TwelveHourBadSuffix | src/salamander/reminders.py:201-204 | A text ending in `m` whose last two characters are not `am` or `pm`, in any case, gives `None`. It does not fall back to the 24-hour path. |
| Reminders.LeadingZerosRejected | src/salamander/reminders.py:201-206 | `001pm` gives `None`. |
| Reminders.ParseHourAm | src/salamander/reminders.py:201-214 | `Nam` gives N for 1 <= N <= 11, and `12am` gives 0. |
| Reminders.ParseHourPm | src/salamander/reminders.py:201-214 | `Npm` gives N + 12 for 1 <= N <= 11, and `12pm` gives 12. |
| Reminders.TwelveHour | src/salamander/reminders.py:201-214 | The 12-hour conversion for any one- or two-digit hour. |
| Reminders.ParseHour24 | src/salamander/reminders.py:215-222 | A plain hour 0..23 parses as itself. |
| Reminders.EnHourRoundTrip | src/salamander/reminders.py:324-334 | `parse_hour(en_hour_to_str(h)) == h` for every h in 0..23, so 0 is `12am` and 12 is `12pm`. |
| Reminders.EnHourClock | src/salamander/reminders.py:324-334 | `en_hour_to_str(h)` is the clock hour in 1..12 congruent to h mod 12, followed by `am` before noon and `pm` from noon on. |
| Reminders.EmptyHourRejected | src/salamander/reminders.py:215-219 | The empty hour gives `None`. |
| Reminders.UpperCaseRejected | src/salamander/reminders.py:201-219 | `5PM` gives `None`: it does not end in a lower-case `m`. |
| Reminders.MixedCasePm | src/salamander/reminders.py:203-213 | `5Pm` passes the casefolded check but is not converted: it gives 5. |
| Reminders.MixedCaseAm | src/salamander/reminders.py:203-211 | `12Am` gives 12. |
| Reminders.SpacedSuffix | src/salamander/reminders.py:197 | `5 pm` gives 17. |
| Reminders.IndexSetup | src/salamander/reminders.py:42-67 | On a non-empty list, the index is normalised with Python `%` into [0, len). It is the same index when already in range, and congruent otherwise. The page shows that item. `first_disabled` iff the index is 0, `last_disabled` iff it is len-1, and `prev_next_disabled` iff len is 1. |
| Reminders.IndexWraps | src/salamander/reminders.py:46-58 | Index -1 wraps to the last reminder and index len to the first. |
| Notes.IndexSetup | src/salamander/notes.py:119-137 | The same index normalisation and flags for notes. The returned timestamp is the second field of the item shown. |
| Notes.IndexWraps | src/salamander/notes.py:124-129 | Index -1 wraps to the last note and index len to the first. |
| Zones.MatchingNarrows | src/salamander/settings_commands.py:83 | Typing more can only narrow the matches: the matches for `current + more` are among those for `current`. |
| Zones.MatchingIgnoresCase | src/salamander/settings_commands.py:83 | The matches ignore the case of what was typed: lower-casing `current` gives the same matches. |
| Zones.ClosestZones | src/salamander/settings_commands.py:76-86 | `closest_zones` returns distinct matching zones, at most 25. With 25 or fewer matches it returns every match exactly once. With more, it returns the 25 smallest, in sorted order. |
| Zones.SortStrings | src/salamander/settings_commands.py:85 | `sorted` returns its strings in strictly increasing order. |
| Zones.ListOf | src/salamander/settings_commands.py:86 | `list(set)` lists every element once. |
| Zones.LessTransitive | src/salamander/settings_commands.py:85 | String order is transitive. |
| Zones.LessTotal | src/salamander/settings_commands.py:85 | String order is total and asymmetric. |
| Zones.LessIrreflexive | src/salamander/settings_commands.py:85 | String order is irreflexive. |

## Left out

- Random draws (`random.choices` in `fast_roll`, `verbose_roll` and `full_verbose_roll`) are a parameter: the outcomes of each die group's dice.
- Float arithmetic is not modelled. The expected-value helpers `_inner_flattened_cdf_math`, `_ev_roll_dice_keep_best` and `_ev_roll_dice_keep_worst` are modelled over exact reals as recursive sums of the same shape as the loops. No accuracy or closed form is claimed for them. What is stated is `fast_analytic_ev`'s dispatch and how the keep-worst sum relates to the keep-best one.
- `verbose_roll2`, `Expression.verbose_roll`, `full_verbose_roll` and `__repr__` only build display text and are not modelled. `NumberofDice.verbose_roll` is modelled for its total and the list it shows.
- `lru_cache` memoisation on `ncr`, the EV helpers and `en_hour_to_str` is not modelled; it does not change results.
- `load_data` is not modelled: it reads the zlib/msgpack resource holding the base2048 tables, so the tables are parameters with the inverse property as a precondition. object_generation/base2048_resource.py is not part of this model.
- `b2048pack`/`b2048unpack` (msgpack), `resolve_path_with_links` and the `platformdirs` paths in utils.py are foreign libraries or filesystem code.
- Base2048.Decode: the `for` loop is modelled as a `while` loop over the `Peekable`. Each pass is split into DecodePass, CharBits and StageBits, and the final flush into FlushStage.
- Bits.Shl: Python's `<<`, `>>` and masks are modelled as repeated doubling and halving (`Shl`, `Shr`, `Low`). Their arithmetic meaning is proved in ShlValue and ShrValue.
- Reminders.ParseInt: `int()` is modelled as an optional `+` or `-` followed by ASCII digits. Python also accepts underscores between digits, other Unicode digits and surrounding whitespace other than spaces (`parse_hour("5\t")` is 5 in Python and `None` here); spaces are already removed before `int()` is called.
- Zones.Matches: `casefold` is modelled as ASCII lowercasing.
- Zones.ClosestZones: the `pytz` zone set is a parameter. The `_close_zone_cache` lookup is left out because nothing ever writes that cache, so it always misses. The order of `list(zone_matches)` is arbitrary in the model, as set iteration order is in Python.
- Reminders.IndexSetup, Notes.IndexSetup: the Discord embeds, `unpack_extra` and `datetime.fromisoformat` are not modelled. A reminder's time and a note's timestamp are kept as opaque fields.
- Discord, SQLite, asyncio, scheduling and logging are not modelled (bot.py, runner.py, cli.py, logs.py, db.py, tags.py, dice.py, infotools.py and the other view callbacks), nor are `remind_in`/`remind_at` date arithmetic.
