# Word game: guess evaluator and session model

A Dafny model of the browser word game in `script.js`. The player has five
rows to guess a hidden word. Each finished row is coloured:

- green: the letter is in its right place;
- yellow: the letter is elsewhere in the word;
- gray: the letter is not in the word, or all its copies are already claimed.

A countdown of 300 seconds runs beside the board.

The project has three modules:

- `Evaluator` (`evaluator.dfy`) models `colorRow`, the two-pass colouring.
  `Score` runs the algorithm as the game does. It copies the target into a
  scratch array; the game writes `null` into a used slot, and the model
  writes `Taken`. Pass one marks aligned letters green and consumes their
  slots. Pass two visits each cell that is not green, left to right. It looks
  for the first free slot holding the cell's letter (`indexOf`): if one
  exists, the cell turns yellow and the slot is consumed; otherwise it turns
  gray. `Evaluate` is an independent, closed-form statement of the same
  verdicts:
  - a position is green when it is aligned;
  - otherwise it is yellow exactly when the earlier non-aligned positions
    with the same letter are fewer than the target's unclaimed copies of it.

  `Score` is proved equal to `Evaluate`. The lemmas then state what the
  colours mean. The central one is the duplicate-letter rule: for every
  letter, the number of green or yellow positions holding it is the smaller
  of its count in the guess and its count in the target. Guess and target
  may have any lengths. The game always judges five letters, but its
  fallback word list holds four-letter words.
- `Clock` (`clock.dfy`) models `updateTimerDisplay`. It builds the text the
  countdown shows from JavaScript's `Math.floor`, `%`, `toString` and
  `padStart`. `ParseTimer` reads that text back, and the round-trip lemma
  proves that every non-negative time is shown as a distinct, readable
  `m:ss`.
- `Wordle` (`wordle.dfy`) models the session state: `currentRow`,
  `currentCol`, `gameOver`, `timeLeft`, the target word and the board. It is
  a class `Game` whose board is a 5×5 `array2<char>` of letters plus a 5×5
  `array2` of cell colours. Its methods are `ProcessInput`, `CheckGuess`,
  `ColorRow`, `EndGame`, `Tick` (the body of the one-second interval) and
  `Reset`. `Valid()` is the session invariant:
  - the row is at most 5 and the column is between 0 and 5;
  - row 5 means the game is over;
  - the countdown runs exactly while the game is not over, and `timeLeft`
    stays within 0..300;
  - finished rows are full and coloured;
  - the current row holds `currentCol` letters, then empty cells;
  - later rows are untouched.

  The constructor, `Reset`, `ProcessInput`, `CheckGuess` and `Tick` establish
  or keep `Valid()`. `ColorRow`, `EndGame`, `ClearBoard` and `ReadRow` are
  steps inside them and do not promise it on their own. `ProcessInput`
  and `CheckGuess` state their whole effect through two-state predicates
  (`Typed`, `Erased`, `Checked`, `Unchanged`); `Tick`, `EndGame` and `Reset`
  state theirs in direct `ensures` clauses. Three client methods play whole scenarios:
  running out the clock, typing a word and pressing enter, and missing on
  all five rows.

Points of the code's behaviour that the model makes explicit:

- Repeated letters. Against target `SPEED`, guess `ERASE` colours both `E`s
  yellow, because the target holds two `E`s and neither is aligned.
  `Evaluator.SpeedEraseExample` proves `[Present, Absent, Absent, Present,
  Present]`.
- Four-letter fallback words. The fallback words (`AGUA`, `BOCA`, ...) have
  four letters, so a full row, which has five, never equals one. A game on a
  fallback word cannot be won: every full row advances.
  `Wordle.Game.CheckGuess` states this.
- End of the countdown. The game is lost when a tick leaves `timeLeft <= 0`,
  not only when it leaves exactly zero.
- Guess length. The evaluator does not require five letters; it visits the
  positions of the guess. A guess position past the end of the target is
  never green (JavaScript compares the letter with `undefined`).

## Model

| member | source | states |
|---|---|---|
| `Evaluator.Score` | script.js:141-168 | The two-pass colouring returns exactly the closed-form verdicts `Evaluate(guess, target)`. |
| `Evaluator.MarkAligned` | script.js:144-153 | Pass one marks green exactly the aligned positions. It leaves the scratch copy as the target with those slots consumed. |
| `Evaluator.MarkRest` | script.js:155-167 | Pass two turns the marks left by pass one into the full verdict sequence. |
| `Evaluator.Visit` | script.js:156-165 | A green cell is skipped. Any other cell gets its closed-form verdict and consumes a slot only when it turns yellow. No other cell changes. |
| `Evaluator.PassTwoStep` | script.js:158-164 | The lookup finds a free slot with the letter exactly when the closed-form verdict is yellow. Consuming it keeps the scratch counts in step. |
| `Evaluator.IndexOf` | script.js:158 | Returns the first slot still holding the letter, or -1 exactly when no slot holds it. |
| `Evaluator.Evaluate` | script.js:146-166 | Every position of the guess gets exactly one verdict. |
| `Evaluator.ExactIffAligned` | script.js:149-157 | A position is green exactly when its letter equals the target's letter at that index. Pass two never makes a cell green. |
| `Evaluator.SelfEvaluationAllExact` | script.js:126-151 | A guess equal to the target is all green under the two passes, so the whole-row shortcut agrees with them. |
| `Evaluator.CreditedIsMin` | script.js:146-166 | For every letter, the green or yellow positions holding it number min(count in guess, count in target). |
| `Evaluator.CreditedWithinTarget` | script.js:151-161 | A letter is never credited more often than the target holds it. |
| `Evaluator.PresentHasUnmatchedCopy` | script.js:158-161 | A yellow letter occurs in the target at a different index, at a position that is not green. |
| `Evaluator.AbsentMeansExhausted` | script.js:158-164 | A gray letter has all its copies in the target claimed by green or yellow positions. |
| `Evaluator.SpeedEraseExample` | script.js:141-168 | Guess `ERASE` against target `SPEED` gives yellow, gray, gray, yellow, yellow. |
| `Clock.JsRemainder` | script.js:77 | JavaScript's `%` lies strictly between -60 and 60. It agrees with the Euclidean remainder for a non-negative dividend and is never positive for a negative one. |
| `Clock.JsRemainder60` | script.js:77 | The seconds remainder by 60 is the Euclidean one for a non-negative dividend or a multiple of 60, and 60 less otherwise (so -1 gives -1, as JavaScript's `%` does). |
| `Clock.PadStart` | script.js:78 | `padStart` ends with the original text, is at least the width long, and fills the front with the filler. |
| `Clock.Decimal` | script.js:78 | `toString` of a non-negative integer is a non-empty digit string. It is one digit long exactly below 10, and starts with `0` only for zero. |
| `Clock.Repeat` | script.js:78 | The filler run is exactly n copies of the filler character. |
| `Clock.DecimalRoundTrip` | script.js:78 | Reading the digits of `toString` back gives the number. |
| `Clock.PaddedSeconds` | script.js:77-78 | Padding the seconds below 60 to width 2 with '0' gives their tens digit and then their units digit. |
| `Clock.TimerText` | script.js:75-78 | A non-negative time shows as the decimal `floor(t/60)`, a colon, and the two digits of `t % 60`. |
| `Clock.NumberText` | script.js:78 | `toString` of an integer starts with a minus sign exactly when it is negative; the rest is digits without a leading zero (except `0` itself) that read back as its magnitude. |
| `Clock.ParseAssembled` | script.js:75-78 | A display built from q minutes and seconds below 60 reads back as q*60 plus the seconds. |
| `Clock.TimerTextShape` | script.js:76-78 | A non-negative time shows as at least one digit, a colon and exactly two digits. |
| `Clock.TimerTextRoundTrip` | script.js:75-78 | Reading the display back gives the number of seconds: `floor(t/60)` minutes and `t%60` seconds. |
| `Clock.TimerTextInjective` | script.js:75-78 | Two different non-negative times never show the same text. |
| `Clock.TimerTextExamples` | script.js:75-78 | 300 shows "5:00", 65 shows "1:05" and 1 shows "0:01". |
| `Wordle.UpperCase` | script.js:109 | `toUpperCase` of a key that passes `/^[a-z]$/` is an upper-case letter. |
| `Wordle.Game.constructor` | script.js:1-15 | A new session: row 0, column 0, not over, 300 seconds, countdown running, empty uncoloured board, given target. |
| `Wordle.Game.Reset` | script.js:41-60 | Restores row 0, column 0, not over and 300 seconds with the countdown restarted. The board is empty and uncoloured, the target is the new word, and the invariant holds. |
| `Wordle.Game.ClearBoard` | script.js:47-50 | Every cell is emptied and uncoloured. |
| `Wordle.Game.ProcessInput` | script.js:98-112 | Keeps the invariant, so the column stays in 0..5. Once the game is over, no key changes anything. Enter judges the row only at column 5. Backspace or del at column 0 does nothing; otherwise it moves back and empties that cell. A letter is written upper-cased and advances the column only below 5. Any other key does nothing. |
| `Wordle.Game.CheckGuess` | script.js:121-138 | The guess judged is the row's five letters. A correct guess colours the row green and ends the game without advancing. Otherwise the row gets the evaluator's colours, the column resets, the row advances, and the game ends when the row reaches 5. The target is unchanged. A target that is not five letters long is never guessed. |
| `Wordle.Game.ColorRow` | script.js:141-168 | Colours only row r: all green on the shortcut, otherwise the verdicts of the row's word against the target. |
| `Wordle.Game.ReadRow` | script.js:122-124 | Returns the texts of the row's cells, joined. |
| `Wordle.Game.EndGame` | script.js:171-173 | Sets game over and stops the countdown. The cursor, target and time are unchanged. |
| `Wordle.Game.Tick` | script.js:64-71 | A running countdown loses exactly one second, and the game is over exactly when none is left. A stopped countdown does not change. The invariant holds. |
| `Wordle.Game.CurrentRowWord` | script.js:98-112 | The current row's word is exactly its first `currentCol` cells, all upper-case letters. |
| `Wordle.RunOutClock` | script.js:63-71 | From a running countdown, the game ends after exactly `timeLeft` ticks, with zero seconds left. |
| `Wordle.PlayWord` | script.js:98-138 | Typing five lower-case letters and pressing enter judges exactly that word upper-cased. A right word wins on that row; a wrong one is coloured by the evaluator and moves on, losing on the last row. |
| `Wordle.MissEveryRow` | script.js:130-136 | Five wrong words from a fresh board end the game on row 5. |

## Left out

- `fetchNewWord`: the network request, the JSON parsing and the random choice from the fallback list are I/O and randomness. The target is a parameter of the constructor and of `Reset`.
- Page access: `document.querySelector*`, `addEventListener`, `updateCell` and the writes to `textContent` and `style` are modelled as reads and writes of the in-memory board. An empty cell's text `''` is the character `Blank`, and a row's word joins the non-blank cells.
- `handleKeyboardClick` and `handleKeyPress`: they turn browser events into key strings. `ProcessInput` takes the key string directly.
- The `alert` messages of `endGame`: the `won` argument only selects the message, so `EndGame` takes no argument.
- `setInterval` and `clearInterval`: real time and scheduling are not modelled. `timerRunning` records whether the interval is live, and `Tick` is one run of its callback. `updateTimerDisplay` writes `Clock.TimerText(timeLeft)` to the page; that write is not modelled.
- The asynchronous order inside `resetGame`: the old interval keeps running while the new word is awaited. `Reset` runs as one step.
- `initGame` and `window.onload`: the constructor gives the state after start-up.
- `setDifficulty` and `difficulty`: the value is stored but no logic reads it.
- Wordle.Game.ColorRow: requires the row's word to have five letters, which its only caller guarantees. It does not model what the page would show for a shorter row.
