# Guessing game core in Dafny

This project models the game logic of a desktop number-guessing game written in Rust
(`src/main.rs`). It covers the following pieces:

- **Difficulty levels.** Each level has a secret range and an attempt budget (`Config`).
- **Difficulty chooser.** The chooser's selected index maps to a level (`Config`).
- **New game.** A fresh game is set up, with the random secret passed in by the caller (`Game.Start` and the `Game.GameState` constructor).
- **Guess button.** A press of the button is handled like this (`Game`):
  - the text of the input field is trimmed and parsed as a `u32` (`Text`);
  - a finished game ignores the press;
  - text that does not parse changes nothing;
  - a readable guess uses up one attempt, and is then judged too low, too high or correct;
  - a wrong guess that uses the last attempt ends the game and reveals the secret.

The model has two layers:

- **The pure layer.**
  - The record `Session` holds the game's state.
  - `Step` is one press of the button once the text has been read.
  - `Transition` is one press with the text as typed.
  - `Play` is a run of presses.
- **The class `GameState`.** It has the same four fields as the Rust struct.
  - Its method `Guess` updates those fields in place, as the event loop does, and is specified by `Transition`.
  - This is split in two: `Guess` reads the text, and `Submit` is the imperative body of the arm, specified by `Step`.

Text handling follows Rust's standard library:

- **`str::trim`** strips characters with the Unicode White_Space property from both ends.
- **`u32::from_str`** accepts an optional leading `+` followed by one or more ASCII digits whose value is at most 4294967295. It rejects everything else: the empty string, a lone sign, a `-`, any other character, and a value that does not fit. Leading zeros are accepted.

Modules:

- `wrappers.dfy`: `Option`.
- `uint32.dfy`: the `u32` subset type.
- `text.dfy`: trimming, digit strings, the checked decimal parse and decimal formatting.
- `config.dfy`: `Difficulty`, `Range`, `Attempts` and the chooser mapping.
- `game.dfy`: the session, the outcomes, the transitions, runs of guesses, the `GameState` class and the new-game handler.

## Model

| member | source | states |
|---|---|---|
| Text.TrimStart | src/main.rs:178 | The result is a suffix of the input, everything dropped in front of it is whitespace, and it does not start with whitespace |
| Text.TrimEnd | src/main.rs:178 | The result is a prefix of the input, everything dropped after it is whitespace, and it does not end with whitespace |
| Text.Trim | src/main.rs:178 | The trimmed text is no longer than the input and has no whitespace at either end |
| Text.TrimCutsOnlyWhitespace | src/main.rs:178 | The trimmed text is a contiguous piece of the input, and what was cut off on both sides is all whitespace |
| Text.TrimOfPadded | src/main.rs:178 | Trimming whitespace-padded text with no whitespace at its own ends gives back exactly that text |
| Text.ToDecimal | src/main.rs:186 | The `{}` form of a number is a non-empty digit string with no leading zero (unless it is "0") whose value is the number |
| Text.LeadingZeros | src/main.rs:178 | Zeros in front of a digit string keep it a digit string and do not change its positional value |
| Text.LeadingZerosIgnored | src/main.rs:178 | Zeros typed in front of text that does not start with `+` do not change how it parses: `007` reads as 7, and unparsable text stays unparsable |
| Text.CheckedDecimal | src/main.rs:178 | The checked digit-by-digit accumulation succeeds exactly when every character is a digit and the value fits in a `u32`, and then yields that value |
| Text.ParseU32 | src/main.rs:178 | Parsing succeeds exactly for digits, or `+` then digits, one or more of them, with value at most 4294967295, and returns that value |
| Text.ParseToDecimal | src/main.rs:178 | Every number's decimal form, with or without a leading `+`, parses back to the number exactly when it fits in a `u32` |
| Text.NonDigitRejected | src/main.rs:178 | A character that is neither a digit nor a leading `+` makes the parse fail |
| Text.ReadPaddedNumber | src/main.rs:178 | A number's decimal form, surrounded by any whitespace, reads as that number if it fits in a `u32`, and is rejected otherwise |
| Text.BlankRejected | src/main.rs:178 | Empty or all-whitespace text trims to nothing and is rejected |
| Text.ReadGuess | src/main.rs:178 | No contract of its own (it is `ParseU32` after `Trim`); what it reads is stated by `Text.ReadPaddedNumber`, `Text.BlankRejected` and `Text.StrayCharacterRejected` |
| Text.StrayCharacterRejected | src/main.rs:178 | After the padding is cut off, one stray letter, sign, decimal point or inner blank makes the guess unreadable |
| Config.Range | src/main.rs:32-38 | Every level's secret range is non-empty, starts at 1, and ends at 100, 500 or 1000 |
| Config.Attempts | src/main.rs:41-47 | Every level's budget is 10, 9 or 8, so at least one attempt |
| Config.ChoiceIndex | src/main.rs:106-108 | Each level sits at one of the chooser's three positions |
| Config.FromChoice | src/main.rs:154-158 | Positions 0, 1 and 2 give the level at that position; any other value falls back to Easy |
| Config.ChoiceRoundTrip | src/main.rs:106-109 | Reading back a level's position selects that level, and the default selection (0) is Easy |
| Config.HarderIsHarder | src/main.rs:30-48 | A level further down the chooser has a strictly wider range and a strictly smaller budget |
| Game.Start | src/main.rs:60-69 | A new game is running, has the full budget of its level and the given level and secret, and satisfies the invariant |
| Game.Judge | src/main.rs:179-209 | The `Ok(num)` branch: exactly one attempt is used and nothing else changes but the flag; the game ends exactly when the guess is the secret or the attempt was the last; a correct guess reports `Correct` even on the last attempt, a wrong last guess reports `Exhausted` with the secret, and otherwise the report is too low or too high |
| Game.Step | src/main.rs:173-217 | A press never changes the secret or level or adds attempts, never reopens a finished game, and keeps both the no-underflow condition and the invariant |
| Game.Transition | src/main.rs:172-218 | No contract of its own (it is `Step` of `ReadGuess`); its behaviour is stated by `Game.Step`'s contract and the lemmas `Game.UnreadableGuess`, `Game.ReadableGuess`, `Game.CorrectGuessWins`, `Game.WrongGuess`, `Game.PaddedGuessIsJudged` and `Game.MalformedGuessIgnored` |
| Game.GuessAfterGameOver | src/main.rs:173 | Once the game is over a press changes nothing and reports AlreadyOver |
| Game.UnreadableGuess | src/main.rs:214-217 | Unreadable text leaves the whole state unchanged, reports InvalidInput and does not end the game |
| Game.ReadableGuess | src/main.rs:178-180 | A readable guess uses up exactly one attempt, keeps the secret and level, and is reported with its value |
| Game.CorrectGuessWins | src/main.rs:193-203 | Guessing the secret ends the game as a win with one attempt fewer, even when it was the last attempt |
| Game.WrongGuess | src/main.rs:183-209 | A wrong guess ends the game exactly when it used the last attempt and then reveals the secret; otherwise it reports too low or too high |
| Game.GameOverExactlyOnEnd | src/main.rs:193-209 | The game-over flag is set after a press exactly when it was already set or the press won or lost, and a finished game reports no ending |
| Game.GuessAccounting | src/main.rs:178-180 | A press takes one attempt if its guess was read and none otherwise |
| Game.MalformedGuessIgnored | src/main.rs:172-218 | Blank text, or text whose trimmed form has a stray character, leaves the state unchanged and reports InvalidInput |
| Game.PaddedGuessIsJudged | src/main.rs:178-180 | A number typed with any padding is judged as that number |
| Game.Play | src/main.rs:172-218 | A run of presses keeps the no-underflow condition and gives one report per press |
| Game.PlayKeepsInvariant | src/main.rs:173-209 | Any run of presses keeps the invariant, the secret and the level |
| Game.PlayAccounting | src/main.rs:180 | Over any run, the attempts left plus the number of read guesses equal the attempts at the start |
| Game.PlayEndsAtMostOnce | src/main.rs:173-209 | A game ends at most once, a finished game never ends again, and it is over exactly when it was over already or some press ended it |
| Game.PlayAfterGameOver | src/main.rs:173 | After the game is over, no run of presses changes it and each press reports AlreadyOver |
| Game.BudgetBoundsGuesses | src/main.rs:173-180 | A game started at a level reads at most that level's budget of guesses, whatever is typed |
| Game.WrongGuessesExhaust | src/main.rs:180-209 | As many wrong guesses as attempts left end the game with none left: every report but the last says too low or too high, and the last reveals the secret |
| Game.EasyScenario | src/main.rs:172-218 | Easy with secret 42: 50 is too high, 10 too low, 42 correct, leaving 7 attempts and the game over |
| Game.EasyScenarioTyped | src/main.rs:172-218 | The first press of the Easy game typed as "50" is too high and leaves nine attempts |
| Game.DecimalPointRefused | src/main.rs:178 | Typing "3.5" into a running game is refused and changes nothing |
| Game.BlankRefused | src/main.rs:178 | Typing a lone blank into a running game is refused and changes nothing |
| Game.MediumScenario | src/main.rs:172-218 | Medium with secret 7: nine wrong guesses use up all nine attempts, and the ninth reveals 7 |
| Game.MediumScenarioTyped | src/main.rs:172-218 | The first press of the Medium game typed as " 1" plus a newline is too low and leaves eight attempts |
| Game.NegativeRefused | src/main.rs:178 | Typing "-5" into a running game is refused and changes nothing |
| Game.GameState.constructor | src/main.rs:60-69 | The new object holds exactly the fresh session for the level and secret, and satisfies the invariant |
| Game.GameState.Guess | src/main.rs:172-218 | The fields after a press and the reported outcome are exactly the transition of the old fields on the typed text, and the invariant is kept |
| Game.GameState.Submit | src/main.rs:173-217 | The in-place updates of the arm (decrement, win flag, exhaustion check) produce exactly `Step` of the old fields, and the invariant is kept |
| Game.NewGame | src/main.rs:153-159 | The new-game handler gives a fresh object holding the new session at the level the chooser selects |

## Left out

- The fltk user interface is not modelled because it only presents the game. This covers windows, packs, labels and colours, activating and deactivating widgets, and clearing the input field (src/main.rs:84-145 and the widget calls inside 161-216).
- The guess history buffer and its text is not modelled. `Text.ToDecimal` models only the decimal form a guess has there.
- The event loop and message channel (src/main.rs:149-150) are not modelled because they are framework dispatch. A run of guess presses is `Game.Play`; a new-game press in between replaces the object, as `Game.NewGame`, and the run starts again from `Game.Start`.
- The random draw of the secret (src/main.rs:61) is not modelled because it is nondeterministic. The secret is a parameter that must lie in `Range(d)`.
- The debug `println!` (src/main.rs:62) is not modelled because it is console output.
- The kinds of Rust's `ParseIntError` (empty, invalid digit, overflow) are not kept. Every failed parse is `None`, because the source discards the error (`Err(_)`).
- The chooser's `value()` is an `i32` in the source and is modelled as an unbounded `int`. Only 1 and 2 are special, so the width does not matter.
- On a press after the game is over, the source just `continue`s. The model reports that case as the outcome `AlreadyOver`.
- `Exhausted` carries the last guess as well as the secret, because the source still logs that guess.
- The source is more permissive than a plain non-negative integer reading of the input, and the model follows the code:
  - it accepts a leading `+` and leading zeros (`u32::from_str`);
  - it trims all Unicode whitespace, not only ASCII.
- Trim: its own contract states only the length bound and that no whitespace is left at either end. That the text is an unchanged piece of the input, with only whitespace cut off, is the lemma `Text.TrimCutsOnlyWhitespace`.
- Play: its own contract states only the no-underflow condition and the number of reports. The invariant, the attempt accounting and the game ending at most once are the `Play*` lemmas beside it.
