# Password Code Machine — a Dafny model of the puzzle engine

The repository holds a Mastermind-style puzzle in two front ends:

- **The browser game** is `html/script.js`, class `PasswordPuzzleGame`. It keeps a hidden four-colour password, an append-only log of guesses and generated hints, an attempt counter, won/over flags, and a four-slot guess buffer with a selected slot.
- **The console game** is `src/main/java/com/puzzle/PasswordPuzzle.java`. It plays the same game on a terminal, with a smaller easy pool, tick/cross marks in easy mode, an input-line validator and a count-down attempt loop.

This project models the engine of both without their rendering and printing. It proves what the engine promises:

- passwords are four distinct colours of the pool;
- the shuffle only permutes;
- hints never equal the password;
- the hard scorer computes classic Mastermind feedback (exact matches, then colour-only matches) and is shared by both front ends;
- the easy scorers mark each slot by exact match, then (in the browser) by whether its colour occurs in the password;
- refused submissions change nothing;
- accepted ones append exactly one record and decide win or loss correctly;
- the engine's state invariant (attempts = log length, over ⇔ won ∨ out of attempts) is kept by every operation.

Modules:

- `Codes` (codes.dfy) holds what both games share:
  - the password predicates;
  - the insertion-ordered de-duplication of a JavaScript `Set`/`Map` (`Dedup`);
  - the descending Fisher–Yates swap pass (`FisherYates`) and its in-place loop `Shuffle`;
  - the bookkeeping of the hint rejection loops (`Misses`, `Without`).
- `Scoring` (scoring.dfy) specifies hard-mode feedback once (`HardFeedback`):
  - correct is the number of exact matches (`Exact`);
  - wrong-position is the size of the multiset intersection of the mismatched guess colours and the mismatched password colours. This equals the per-colour sum of minimum counts that both implementations compute.
- `WebGame` (web_game.dfy) is the browser engine as a class `PasswordPuzzleGame` whose methods update its fields. The scorers are loops proved against the specification functions.
- `ConsoleGame` (console_game.dfy) is the console engine as a class `PasswordPuzzle`. The attempt loop is proved against a specification function `Play`, whose properties are lemmas.

Randomness (`Math.random`) enters as draw sequences passed by the caller:

- colour draws for the password set;
- swap indices for the shuffle, the k-th lying in [0, n-1-k];
- four-colour codes for the hints.

The rejection loops require only that the draws eventually supply what they wait for: four distinct colours, and as many codes that differ from the drawn password as hints are wanted. Only the console `Start`, which cannot name its password in advance, asks for more (see below). Console input enters as a sequence of already tokenised lines. Java's `HashSet` and `HashMap` iteration order is left open: the model picks elements arbitrarily, and the results are proved for every order.

Two client methods exercise the browser class:

- `WebGame.SelectColorAdvanceExample` shows that with buffer [0, _, 2, _] and slot 1 selected, choosing a colour selects slot 3.
- `WebGame.ClearTwiceExample` shows that clearing twice equals clearing once.

## Model

| member | source | states |
|---|---|---|
| Codes.Dedup | html/script.js:204-210 | The Set's contents in insertion order hold no colour twice and hold exactly the drawn colours. |
| Codes.DedupPrefix | html/script.js:205-208 | The Set after k draws is a prefix, in insertion order, of the Set after all draws. |
| Codes.FirstDistinct | html/script.js:204-208 | The Set that stops at four colours holds four distinct colours, each of them drawn. |
| Codes.Shuffle | html/script.js:212-215 | The array after the in-place swap loop is the Fisher–Yates pass of its old contents under the drawn indices. |
| Codes.SwapMultiset | html/script.js:214 | One swap keeps the length and the multiset of the array. |
| Codes.FisherYatesStepsPermute | html/script.js:212-215 | Every prefix of the swap pass keeps the multiset of values. |
| Codes.FisherYatesStepsDistinct | html/script.js:212-215 | Every prefix of the swap pass keeps distinct values distinct. |
| Codes.FisherYatesKeepsSecret | html/script.js:203-218 | Shuffling a password of the pool gives a password of the pool with the same multiset of colours. |
| Codes.Without | src/main/java/com/puzzle/PasswordPuzzle.java:79-81 | The kept draws are as many as the draws that differ from the password, and each is a draw that differs from it. |
| Codes.WithoutAppend | src/main/java/com/puzzle/PasswordPuzzle.java:74-82 | Filtering the draws in two stretches keeps the same codes in the same order as filtering them at once. |
| Scoring.ExactAll | html/script.js:274-278 | The exact-match count equals the length exactly when the guess is the password. |
| Scoring.MismatchCount | html/script.js:284-289 | The mismatched guess slots and the mismatched password slots each number 4 − correct. |
| Scoring.TallyCounts | html/script.js:284-289 | The colour-count Map holds each colour's number of occurrences, and its keys are exactly the colours that occur. |
| Scoring.HardFeedbackBounds | html/script.js:296-298 | correct, wrongPosition and wrong are non-negative and add up to 4. |
| Scoring.HardFeedbackPerfect | html/script.js:269-299 | correct is 4 exactly when the guess is the password, and the password scores {4, 0, 0}. |
| Scoring.HardFeedbackSymmetric | html/script.js:269-299 | Exchanging guess and password gives the same feedback. |
| Scoring.HardFeedbackExample | html/script.js:269-299 | Password [0,1,2,3] and guess [1,0,2,3] score {2, 2, 0}. |
| WebGame.CalculateEasyModeFeedback | html/script.js:252-266 | Four labels: 'correct' iff the slot matches, 'wrong' iff the colour is absent from the password, 'wrong-position' otherwise. |
| WebGame.EasyFeedbackPerfect | html/script.js:252-266 | The labels are four 'correct' exactly when the guess is the password. |
| WebGame.EasyFeedbackDisjoint | html/script.js:252-266 | A guess sharing no colour with the password gets four 'wrong'. |
| WebGame.CalculateHardModeFeedback | html/script.js:269-299 | The result is the hard feedback of the guess against the password; its counts are non-negative and add up to 4. |
| WebGame.CountCorrect | html/script.js:274-278 | The counter ends at the number of slots where guess and password agree. |
| WebGame.TallyMismatchedColors | html/script.js:281-289 | The two Maps hold the colour counts of the mismatched password slots and guess slots, and the guess Map's key order is their first-occurrence order. |
| WebGame.SumMinimumCounts | html/script.js:291-294 | Summing min(count in guess, count in password) over the guess colours gives the size of the multiset intersection. |
| WebGame.ArraysEqual | html/script.js:846-852 | True exactly when the two arrays have equal lengths and equal entries. |
| WebGame.GeneratePassword | html/script.js:203-218 | The password is four distinct colours of the pool: the first four distinct draws, shuffled by the swap draws. |
| WebGame.DrawHint | html/script.js:226-231 | The do-while returns the first draw from position k that differs from the password; every draw it skipped equals the password, so the codes kept so far grow by exactly that draw. |
| WebGame.LogAppend | html/script.js:321-338 | Logging a scored player guess not played before keeps the log valid, and the game is won exactly when the guess is the password. |
| WebGame.AcceptKeepsValid | html/script.js:321-338 | Accepting a guess keeps the state invariant: one more record and attempt; won iff the guess is the password; over iff won or out of attempts. |
| WebGame.HintLogValid | html/script.js:233-237 | A log of hints only is valid exactly when the game is not won and every entry is a scored hint that is not the password. |
| WebGame.HintsKeepValid | html/script.js:221-240 | A log of fewer than 7 such hints is a valid state of a started game that is neither won nor over. |
| WebGame.IsDuplicate | html/script.js:312-314 | True exactly when an earlier non-hint record has the same colours; hints do not count. |
| WebGame.PasswordPuzzleGame.constructor | html/script.js:3-13 | A valid, not yet started, easy game with an empty password, pool 5, a limit of 7, an empty log, zero attempts and an empty buffer at slot 0. |
| WebGame.PasswordPuzzleGame.CalculateFeedback | html/script.js:243-249 | Hard mode gives the counts, easy mode gives the labels, each against the password. |
| WebGame.PasswordPuzzleGame.GenerateDefaultHints | html/script.js:221-240 | Appends exactly hintCount records, each a hint that is not the password and is scored against it; their codes are, in order, the first hintCount draws that differ from the password. Earlier records are kept, attempts rise by hintCount, the state stays valid and the game is not over. |
| WebGame.PasswordPuzzleGame.LogHints | html/script.js:224-239 | The hint loop appends hintCount hints for the password to a log of such hints, with the codes of the first hintCount draws that differ from the password, and counts each as an attempt. |
| WebGame.PasswordPuzzleGame.LogHint | html/script.js:233-238 | One hint record with its feedback is appended and one attempt counted. |
| WebGame.PasswordPuzzleGame.StartGame | html/script.js:174-189 | The game is valid and started in the chosen mode, with the generated password and only hints logged: the first hintCount draws that differ from it. It has attempts == log length == hintCount < 7, is neither won nor over, and has a fresh empty buffer at slot 0. |
| WebGame.PasswordPuzzleGame.Reset | html/script.js:175-186 | The mode, pool, limits, counters, flags, log, buffer and slot are reset, and the password is set; the state is valid. |
| WebGame.PasswordPuzzleGame.SubmitGuess | html/script.js:302-341 | A finished game, an incomplete buffer or a repeated player guess is refused, with nothing changed. Otherwise exactly one non-hint record with the scored guess is appended and attempts rise by one. won iff the guess is the password (checked before the limit); over iff won or attempts reach the limit. The buffer becomes empty at slot 0. |
| WebGame.PasswordPuzzleGame.RecordGuess | html/script.js:321-338 | Appends the scored player guess and counts the attempt. won iff the guess is the password; over iff won or the limit is reached. The state stays valid. |
| WebGame.PasswordPuzzleGame.ClearCurrentGuess | html/script.js:349-367 | If any slot holds a colour, the buffer becomes empty and slot 0 is selected. On an empty buffer nothing changes, the selected slot included. Afterwards the buffer is empty, so a second call changes nothing. |
| WebGame.PasswordPuzzleGame.SelectColor | html/script.js:387-402 | A finished game is untouched. Otherwise only the selected slot is set, and the lowest empty slot becomes selected; with no empty slot the selection stays. |
| WebGame.PasswordPuzzleGame.SelectSlot | html/script.js:405-409 | The selection becomes the given slot unless the game is over. |
| ConsoleGame.DrawColors | src/main/java/com/puzzle/PasswordPuzzle.java:57-61 | The HashSet ends with four colours: those of the first four distinct draws. |
| ConsoleGame.Enumerate | src/main/java/com/puzzle/PasswordPuzzle.java:62 | The list holds each member of the set once, in an order left open. |
| ConsoleGame.ListedColors | src/main/java/com/puzzle/PasswordPuzzle.java:57-62 | The listed set is a password of the pool with the colours of the first four distinct draws. |
| ConsoleGame.ShuffleCopy | src/main/java/com/puzzle/PasswordPuzzle.java:63-67 | The copied array is the Fisher–Yates pass of the list under the swap draws. |
| ConsoleGame.ShuffleKeepsColors | src/main/java/com/puzzle/PasswordPuzzle.java:63 | Shuffling a password keeps it a password of the pool with the same colours. |
| ConsoleGame.GeneratePassword | src/main/java/com/puzzle/PasswordPuzzle.java:56-69 | The password is four distinct colours of the pool, and its colours are exactly those of the first four distinct draws. |
| ConsoleGame.EasyPasswordIsPermutation | src/main/java/com/puzzle/PasswordPuzzle.java:21 | With the easy pool of 4, a password contains exactly the colours 0, 1, 2 and 3, so it is an ordering of them. |
| ConsoleGame.GenerateDefaultHints | src/main/java/com/puzzle/PasswordPuzzle.java:72-84 | Exactly maxHints codes are returned: the first maxHints draws that differ from the password. Each has length 4, lies in the pool and is not the password. |
| ConsoleGame.FillCode | src/main/java/com/puzzle/PasswordPuzzle.java:75-78 | The filled array holds the four drawn colours. |
| ConsoleGame.ScoreHard | src/main/java/com/puzzle/PasswordPuzzle.java:98-129 | green, white and 4 − green − white are the shared hard feedback, so they agree with html/script.js; green + white ≤ 4, so the repeat count of empty lights is never negative. |
| ConsoleGame.CountGreen | src/main/java/com/puzzle/PasswordPuzzle.java:102-106 | The green counter ends at the number of slots where guess and password agree. |
| ConsoleGame.TallyColors | src/main/java/com/puzzle/PasswordPuzzle.java:109-117 | The two HashMaps hold the colour counts of the mismatched password slots and guess slots. |
| ConsoleGame.SumMinimumCounts | src/main/java/com/puzzle/PasswordPuzzle.java:120-125 | In any iteration order, summing min(count in guess, count in password) gives the size of the multiset intersection. |
| ConsoleGame.EasyMarks | src/main/java/com/puzzle/PasswordPuzzle.java:131-143 | Four marks: ✓ exactly where guess and password agree, ✗ elsewhere. The ✓ count is the green count, and four ✓ means the guess is the password. |
| ConsoleGame.PlayOutcome | src/main/java/com/puzzle/PasswordPuzzle.java:35-47 | The loop only appends, and only valid guesses. The game is won exactly when the last appended guess is the password, and no earlier one is. At most the remaining attempts are used, and a lost game used every one on a guess. |
| ConsoleGame.PlaySkipsRefused | src/main/java/com/puzzle/PasswordPuzzle.java:40-46 | A refused line costs no attempt: the game goes on as if it had not been typed. |
| ConsoleGame.PlayIgnoresLog | src/main/java/com/puzzle/PasswordPuzzle.java:35-47 | The loop never reads the log: from any log it appends exactly what it would append to an empty log, with the same outcome, so there is no duplicate check for any input. |
| ConsoleGame.RepeatCostsAttempt | src/main/java/com/puzzle/PasswordPuzzle.java:38-46 | A valid wrong guess already in the log is logged again and uses one attempt, for every log, line and remaining input. |
| ConsoleGame.PlayAcceptsRepeats | src/main/java/com/puzzle/PasswordPuzzle.java:38-46 | An instance of the two lemmas above: with password [0,1,2,3], the wrong guess [3,2,1,0] typed twice is logged twice and uses both attempts. |
| ConsoleGame.PasswordPuzzle.constructor | src/main/java/com/puzzle/PasswordPuzzle.java:9-12 | A new game has no password, an empty log, easy mode and an empty pool. |
| ConsoleGame.PasswordPuzzle.GetUserGuess | src/main/java/com/puzzle/PasswordPuzzle.java:148-178 | A line without four pieces, then one with a non-integer piece, then one with a colour outside the pool, is refused, leaving the log unchanged. Otherwise the guess is appended. |
| ConsoleGame.PasswordPuzzle.Start | src/main/java/com/puzzle/PasswordPuzzle.java:14-53 | The mode and pool (7 hard, 4 easy) are set. The password is four distinct colours of the pool, the hints are logged, and the game continues with 7 − logged rows as attempts, as Play describes. |
| ConsoleGame.PasswordPuzzle.PlayAttempts | src/main/java/com/puzzle/PasswordPuzzle.java:35-47 | The outcome and the final log are those of Play from the current log with 7 − log length attempts. |

## Left out

- Rendering and UI of the browser game: event listeners, `render*`, `updateGameInfo`, `updateSubmitButton`, the screen switches, the floating windows, modals, `showMessage` and `playClearEffect`. They only present state.
- Timers and animation: `setTimeout` sequencing, `playModeSelectionEffect` and its delayed `startGame`, and the floating-point `createMagicParticles`.
- The colour name and hex table, and `src/main/java/com/puzzle/util/ANSIColors.java`. Both are cosmetic data.
- `Math.random`: every use becomes a draw sequence passed in, as described above. The rejection loops are proved under the condition that the draws supply what they wait for; their termination on arbitrary random input is not modelled.
- Console I/O: `Scanner`, `System.out`, `displayColorIndex`, `displayPasswordWithColors` and the printing loop of `displayHints`. The two scorers inside `displayHints` are modelled.
- The choice of difficulty from the first input line (`equalsIgnoreCase`) is modelled as a boolean parameter. `String.split` and `Integer.parseInt` are modelled as a line of tokens that are integers or not, so the range of a Java `int` is not modelled.
- The console hint count `(int)(Math.random() * 5) + 1` and the browser one are parameters in [1, 5].
- A console game whose input runs out ends with `OutOfInput`; the Java code would throw from `Scanner.nextLine` there.
- WebGame.PasswordPuzzleGame.SubmitGuess: requires a started game (a drawn password). The browser only shows the guess screen after `startGame`.
- WebGame.PasswordPuzzleGame.SelectColor: requires the colour to lie in the pool. The palette only offers those colours; the JavaScript method itself does not check.
- WebGame.PasswordPuzzleGame.SelectSlot: requires a slot in [0, 4). The buffer only offers those slots.
- WebGame.PasswordPuzzleGame.GenerateDefaultHints: requires the hints to leave the attempts below the limit. `startGame` calls it on an empty log with at most five hints.
- WebGame.PasswordPuzzleGame.StartGame: draws the password before resetting the fields, while the code resets them first. The draw reads only the pool size, which both orders set to the same value.
- ConsoleGame.PasswordPuzzle.Start: requires the hint draws to hold hintCount codes that differ from any one code (`HintSupply`). A run needs that only for the password it draws; the HashSet order that fixes the password is left open, so the caller cannot name it. Draws that repeat a single code more often than that are outside this entry point, though `ConsoleGame.GenerateDefaultHints` itself takes the exact condition.
- WebGame.PasswordPuzzleGame.ClearCurrentGuess: on an empty buffer the code returns early, keeping the selected slot, and the model follows the code. `submitGuess` always clears a full buffer.
- WebGame.PasswordPuzzleGame.RecordGuess: leaves the buffer as it is; `SubmitGuess` then clears it as `submitGuess` does. The split only makes the proof smaller.
