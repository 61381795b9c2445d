# Wordle core, modelled in Dafny

A model of the logic of a browser Wordle game. The whole game lives in one script,
`script.js`. The model covers three parts of it:

- **Guess evaluation** (`checkWord`, module `Evaluation`). A table counts the target's
  letters. A first pass marks exact matches Correct and takes them off the table. A
  second pass marks each remaining tile Present while its letter still has a count above
  zero, taking one off each time; every other tile is Absent. A per-guess letter map keeps
  one keyboard hint per letter. The tiles' class lists are an `array<Tile>`, and the
  second pass reads them back as the source does. The counts are a `map<char, int>`, where
  a missing letter reads as 0 (JavaScript's falsy `undefined`). Each pass is a loop over
  the tiles whose body is a method of its own (`MarkIfExact`, `ClassifyTile`), mirroring
  the `forEach` callbacks. `Evaluate` is proved equal to a specification, `Score` and
  `KeyHints`, and the lemmas about that specification carry the properties.
- **The game state machine** (module `Wordle`). The globals `currentWord`, `currentRow`,
  `gameOver` and `targetWord` (with the word list `WORDS`) are the fields of class `Game`.
  `HandleKeyPress`, `CheckWord` and `ResetGame` change them in place. Each is proved to
  move the state as the pure functions `Press`, `Submit` and `Start` say, and the lemmas
  about those functions state the game's rules.
- **The word list** (module `Dictionary`). The `map`/`filter` chain of `loadDictionary`
  trims and upper-cases every downloaded line and keeps the five-letter ones. A fixed
  five-word list is the fallback.

Modules `Wrappers` (an `Option` type) and `Config` (`WORD_LENGTH = 5`, `TRIES = 6`) are shared.

A worked example, where the code and an often-quoted expectation part ways: for target
SPEED and guess ERASE, position 4 holds E against D, so it is not an exact match. The
two-pass rule therefore marks both E's of ERASE Present (`ScoreSpeedErase`), not the
last one Correct. The model follows the code.

## Model

| member | source | states |
|---|---|---|
| Evaluation.CountLetters | script.js:130-133 | the table maps every letter to its number of occurrences in the target, and holds exactly the target's letters |
| Evaluation.Evaluate | script.js:124-167 | the tiles' hints are `Score(guess, target)`, `correct` is the number of positions where guess and target agree, and the letter map is `KeyHints` of those hints |
| Evaluation.MarkExact | script.js:135-146 | after the first pass: exactly the exact-match tiles are Correct, each letter's count is its target occurrences minus its exact matches, `correct` counts the matches, and the letter map holds Correct for exactly the letters with a match |
| Evaluation.MarkIfExact | script.js:136-146 | one first-pass step: an exact match marks the tile Correct, takes one off its letter's count, records the letter as Correct and counts it; no count goes below zero; other tiles are untouched |
| Evaluation.MarkRest | script.js:148-167 | after the second pass every tile shows `Score`, and the letter map holds the best hint per letter |
| Evaluation.ClassifyTile | script.js:149-166 | one second-pass step: a tile not marked Correct gets Present exactly while its letter's count is positive, and the count drops by one; otherwise Absent with the count kept; the letter's state is raised, never lowered |
| Evaluation.HintAt | script.js:140-161 | a position is Correct exactly when guess and target agree there, and is Correct or Present only for a letter the target holds |
| Evaluation.Join | script.js:143-164 | the `letterStates` update: the new state is the new hint or the old state, whichever ranks higher, so it never ranks below either |
| Evaluation.Score | script.js:136-167 | one hint per guess position (what each hint is follows from the lemmas below) |
| Evaluation.ExactWithinTarget | script.js:140-142 | a letter never has more exact matches than target occurrences, so the first pass never drives a count negative |
| Evaluation.ExactPlusMisplaced | script.js:136-167 | every occurrence of a letter in the guess is either an exact match or misplaced |
| Evaluation.RemainingStep | script.js:153-161 | in the second pass a misplaced letter is Present exactly when its remaining count is positive, which then drops by one; an Absent or Correct tile leaves every count unchanged |
| Evaluation.StatesStep | script.js:157-164 | each second-pass tile joins its hint into its letter's state (Correct > Present > Absent); other letters' states are unchanged |
| Evaluation.KeptSplit | script.js:136-167 | among the first n positions, the kept (Correct or Present) occurrences of a letter are its exact matches plus as many misplaced ones as the target has spare |
| Evaluation.ScoreKeepsMin | script.js:130-167 | for every letter, the positions holding it marked Correct or Present number min(occurrences in guess, occurrences in target); the excess is Absent |
| Evaluation.KeptOnlyIfInTarget | script.js:154-161 | a Correct or Present hint is only ever given to a letter of the target |
| Evaluation.DisjointAllAbsent | script.js:154-165 | a guess sharing no letter with the target is Absent everywhere |
| Evaluation.MatchesPrefix | script.js:140-145 | the count of matching positions is at most n, and equals n exactly when the first n letters agree |
| Evaluation.AllMatchIffEqual | script.js:178 | the number of Correct tiles equals the word length exactly when guess == target |
| Evaluation.BestSeen | script.js:157-164 | a best hint exists for a letter exactly when some position holds it |
| Evaluation.BestSeenIsBest | script.js:143-164 | the best hint is one some position holding the letter received, and no such position received a better one |
| Evaluation.KeyHints | script.js:127-164 | the letter map's keys are exactly the letters of the guess |
| Evaluation.KeyHintsAreBest | script.js:143-164 | each letter of the guess maps to the best hint among its positions, so a later position never downgrades it |
| Evaluation.CorrectDominates | script.js:157 | once a position holding a letter is Correct, the letter's state is Correct |
| Evaluation.NoCorrectWithoutExact | script.js:140-145 | without an exact match of a letter, no position holding it is Correct |
| Evaluation.SecondPassStatesAreKeyHints | script.js:143-164 | after both passes the letter map equals `KeyHints` of the tiles' hints |
| Evaluation.ScoreAlloyLlama | script.js:130-167 | target ALLOY, guess LLAMA gives Present, Correct, Present, Absent, Absent |
| Evaluation.ScoreSpeedErase | script.js:130-167 | target SPEED, guess ERASE gives Present, Absent, Absent, Present, Present |
| Dictionary.TrimStart | script.js:21 | the result is a suffix of the line, everything cut is white space, and it does not start with white space |
| Dictionary.TrimEnd | script.js:21 | the result is a prefix of the line, everything cut is white space, and it does not end with white space |
| Dictionary.Trim | script.js:21 | the trimmed line neither starts nor ends with white space |
| Dictionary.TrimCutsOnlySpace | script.js:21 | the trimmed line is the infix of the line between its leading and trailing white space |
| Dictionary.ToUpper | script.js:21 | same length, every lower-case ASCII letter replaced by its upper-case partner, every other character unchanged |
| Dictionary.Normalize | script.js:21 | the `trim().toUpperCase()` callback: no longer than the line, no lower-case ASCII letter, and no white space at either end |
| Dictionary.ParseWords | script.js:20-22 | every kept word has five characters and no lower-case ASCII letter |
| Dictionary.ParseWordsMembers | script.js:20-22 | a word is kept exactly when it has five characters and is the normalized form of some line |
| Dictionary.FallbackIsWordList | script.js:29 | the fallback list is non-empty and holds only valid words |
| Dictionary.LoadAsWritten | script.js:16-31 | `WORDS` holds only words of five characters with no lower-case ASCII letter, and is the fallback list when the download throws |
| Dictionary.NotFoundPageLeavesNoWords | script.js:18-25 | a download that completes with no five-letter line leaves `WORDS` empty |
| Dictionary.LoadDictionary | script.js:16-31 | with the fallback also used for an empty result, `WORDS` is non-empty and holds only valid words, and equals the downloaded words whenever there are any |
| Wordle.Start | script.js:94-99 | a fresh game: empty buffer, first row, not over, target in `WORDS` |
| Wordle.Judge | script.js:119-190 | `checkWord`'s verdict: not a word exactly when the word is not listed, won exactly when it is listed and equals the target, lost exactly when it is a listed wrong word on the last row |
| Wordle.Submit | script.js:118-193 | a submission keeps the invariant (buffer at most five letters, row on the board, target in `WORDS`) and never changes the target |
| Wordle.Press | script.js:68-84 | a key press keeps the invariant and never changes the target |
| Wordle.PressAll | script.js:68-84 | any sequence of key presses keeps the invariant |
| Wordle.OverIsFinal | script.js:69 | once the game is over, no sequence of key presses changes anything |
| Wordle.LetterThenBackspace | script.js:71-83 | typing a letter into a buffer with room and deleting it restores the state |
| Wordle.BufferRules | script.js:68-84 | letters are appended only below five, backspace removes the last letter only from a non-empty buffer, Enter below five does nothing, and no key but Enter changes the row or ends the game |
| Wordle.RejectLeavesState | script.js:119-122 | a word not in `WORDS` is rejected and buffer, row and game-over flag are unchanged |
| Wordle.WonIffTarget | script.js:178-182 | the game is won exactly when the submitted word is in `WORDS` and equals the target; winning sets game over on the same row |
| Wordle.LostOrNextRow | script.js:185-193 | a listed wrong word on the last row loses (game over, row kept); on an earlier row it advances the row and clears the buffer |
| Wordle.AcceptedGuessProgresses | script.js:178-193 | every accepted submission either ends the game or advances the row |
| Wordle.Game.constructor | script.js:9-31 | the initial globals after loading: `WORDS` is the loaded list, the state is a fresh game on the picked word |
| Wordle.Game.HandleKeyPress | script.js:68-84 | the globals move as `Press` says, and the invariant holds |
| Wordle.Game.CheckWord | script.js:118-194 | the globals move as `Submit` says, the verdict is `Judge`'s, and an accepted guess yields the tiles' `Score` and the `KeyHints` |
| Wordle.Game.ResetGame | script.js:94-99 | empty buffer, first row, not over, and the target is the picked member of `WORDS` |

## Left out

- Rendering is left out: the board and keyboard construction, `updateBoard`, tile and key class updates, `alert`s, and the new-game button (script.js:34-66, 86-92, 101-115, 170-176). `CheckWord` returns the verdict and the hints these would display.
- The keyboard's colours across guesses are left out. The source clears each key of the current guess and sets this guess's hint (script.js:173-174), so a later guess can downgrade a key. The model gives only each guess's own `KeyHints`, and claims no "never downgrade" across guesses, because the code does not implement one.
- The network fetch, its `await`s and `text.split('\n')` are left out. The downloaded text enters as its lines, `Some(lines)`; `None` stands for the thrown error.
- The `DOMContentLoaded` and `keydown` listeners are left out (event glue). `Key` has one constructor per kind of argument `handleKeyPress` receives: '⌫', 'Enter', or a single letter.
- `Math.random` is left out. Each pick is an index parameter `choice`, with `choice < |WORDS|`.
- The initial `targetWord` (script.js:14) is read from an empty list and is `undefined`. The model starts after loading.
- Dictionary.ToUpper: upper-cases ASCII letters only, because `toUpperCase` on other scripts (which can change a string's length) is library behaviour outside this model.
- Dictionary.ParseWords: counts length in characters, not UTF-16 code units as JavaScript's `length` does, so a line holding characters outside the Basic Multilingual Plane may be kept or dropped differently.
- Evaluation.Evaluate: requires both words to have five letters. `handleKeyPress` only submits five letters, and every listed target has five.
- Wordle.Game.constructor: uses the corrected loader from the finding below, so the game always has a target.

## Findings

| source | as written | input that shows it | evidently intended | confidence | as-written member | corrected member |
|---|---|---|---|---|---|---|
| script.js:18-30 | the fallback list is used only when `fetch` or `text()` throws; a download that completes but has no five-letter line leaves `WORDS` empty and `targetWord` undefined, so every guess is rejected | the response body "404: Not Found" of a missing file (`fetch` does not throw on an HTTP error status) | fall back to the built-in list whenever the downloaded list is empty, so a target can always be picked | medium, not executed | Dictionary.NotFoundPageLeavesNoWords | Dictionary.LoadDictionary |
