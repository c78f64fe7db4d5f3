# Assembly Endgame: the word-guessing round, modelled in Dafny

Assembly Endgame is a hangman-style browser game. The player guesses the letters
of a hidden lower-case word. Every wrong letter costs one programming language,
shown as a chip. Everything the game knows lives in two state cells of its one
component, `App`:

- the secret word (`currentWord`);
- the ordered list of guessed letters (`guessedLetters`).

Everything the screen shows is recomputed from those two cells on every render.
That covers the wrong-guess count, the won, lost and game-over flags, the last
guess, the word tiles, the keyboard flags, the language chips, the status
message and the screen-reader pattern of the word.

The project has four modules:

- `Derived` (`derived.dfy`) holds the derived values as pure functions of the
  word, the guesses and the number of lives. It also holds the updater the
  component passes to its guessed-letters cell (`AddGuess`), and lemmas relating
  them all. The number of lives is `languages.length`, a parameter here.
- `Rounds` (`rounds.dfy`) describes the guess lists a round can reach through the
  keyboard (`Reachable`). Every key is disabled while the game is over, so
  letters are only added to a game in progress. It proves the round's
  invariants: the guesses are distinct, at most `lives - 1` of them are wrong,
  and the game is never both won and lost.
- `Game` (`game.dfy`) is the component's state as a class `App`. Its fields are
  `currentWord` and `guessedLetters`, plus the fixed list of language names. Its
  two event handlers, `AddGuessedLetter` and `StartNewGame`, update the fields
  in place and keep the invariant `Valid()`.
- `Scenarios` (`scenarios.dfy`) works through concrete rounds with the word "go"
  and eight languages. It also shows what the update would do without the
  keyboard's game-over gate.

The predicates `IsGameWon`, `IsGameLost`, `IsGameOver` and
`IsLastGuessIncorrect` transcribe the component's lines 18-26. `Reachable`
describes the guess lists that the keyboard can produce.

Two points about the code shape the model:

- `addGuessedLetter` (`src/App.jsx:45-51`) does not check whether the game is
  over; only the disabled keys at line 71 stop it. `WrongGuessCountAfterGuess`
  and `UngatedGuessesWinAndLose` show what an ungated guess does: after a win it
  still raises the wrong-guess count and can make the round lost as well. So
  `AddGuessedLetter` takes the gate as a precondition.
- The guesses are an array, appended to after an `includes` check. The model
  keeps an ordered sequence and proves it stays duplicate-free.

## Model

| member | source | states |
|---|---|---|
| `Derived.AlphabetIsTheLetters` | src/App.jsx:28 | the keyboard alphabet contains a character exactly when it is a lower-case letter |
| `Derived.AddGuess` | src/App.jsx:46-50 | the updated list holds exactly the old letters and the new one; it keeps the old list as its prefix, grows by at most one, and stays duplicate-free |
| `Derived.AddGuessKnown` | src/App.jsx:47-48 | guessing an already guessed letter leaves the list unchanged |
| `Derived.AddGuessFresh` | src/App.jsx:49 | guessing a new letter grows the list by one, keeps every earlier guess in place and makes the letter the last guess |
| `Derived.AddGuessIdempotent` | src/App.jsx:46-50 | guessing the same letter twice has the effect of guessing it once |
| `Derived.LastGuessedLetter` | src/App.jsx:24 | there is a last guess exactly when something was guessed, and it is one of the guesses |
| `Derived.WrongGuesses` | src/App.jsx:14-16 | the filtered list holds exactly the guessed letters absent from the word and is no longer than the guesses |
| `Derived.WrongGuessCount` | src/App.jsx:14-16 | the count is at most the number of guesses, and zero exactly when every guessed letter is in the word |
| `Derived.WrongGuessesConcat` | src/App.jsx:14-16 | the wrong guesses of two stretches of guesses are those of the first followed by those of the second |
| `Derived.AllMissesAreWrong` | src/App.jsx:14-16 | when no guessed letter is in the word, every guess is a wrong guess |
| `Derived.WrongGuessesAppend` | src/App.jsx:14-16 | appending a letter appends it to the wrong guesses exactly when it is not in the word |
| `Derived.WrongGuessCountAppend` | src/App.jsx:14-16 | a right new letter leaves the count unchanged; a wrong one raises it by exactly one |
| `Derived.WrongGuessCountAfterGuess` | src/App.jsx:45-51 | after the update, the count grows by one exactly when the letter is new and not in the word |
| `Derived.WrongGuessCountIsWrongLetters` | src/App.jsx:14-16 | for distinct guesses, the count equals the number of distinct guessed letters absent from the word |
| `Derived.IsGameWon` | src/App.jsx:18-20 | the positional check holds exactly when every letter occurring in the word occurs among the guesses |
| `Derived.IsGameLost` | src/App.jsx:21 | with at most one language the game is lost from the start; otherwise a loss needs at least lives - 1 guesses, at least one of them absent from the word |
| `Derived.IsGameOver` | src/App.jsx:22 | while the game is not over, some position of the word is unguessed and the wrong-guess count is below lives - 1 |
| `Derived.IsLastGuessIncorrect` | src/App.jsx:24-26 | the last guess is incorrect exactly when there is one and it is among the wrong guesses |
| `Derived.WonIffLettersCovered` | src/App.jsx:18-20 | the game is won exactly when the set of the word's letters is contained in the set of guesses |
| `Derived.WonIsMonotone` | src/App.jsx:18-20 | once won, any further guess keeps the game won |
| `Derived.LostIsMonotone` | src/App.jsx:21 | once lost, any further guess keeps the game lost |
| `Derived.WrongGuessDoesNotWin` | src/App.jsx:18-20 | a letter not in the word cannot turn an unwon game into a won one |
| `Derived.LastIncorrectIsCounted` | src/App.jsx:24-26 | an incorrect last guess means the wrong-guess count is at least one |
| `Derived.LastGuessIncorrectAfterGuess` | src/App.jsx:24-26 | after a new letter is guessed, the last guess is incorrect exactly when that letter is not in the word |
| `Derived.Tiles` | src/App.jsx:30-36 | one tile per letter of the word, carrying that letter; a tile is revealed exactly when the game is lost or its letter is guessed; a missed tile is revealed and its letter unguessed |
| `Derived.AllRevealedIffOver` | src/App.jsx:31 | every tile is revealed exactly when the game is over (won or lost) |
| `Derived.MissedTiles` | src/App.jsx:35 | a tile is missed exactly when the game is lost and its letter was not guessed |
| `Derived.Mask` | src/App.jsx:165-170 | one entry per letter of the word: "blank." exactly where the letter is unguessed, and the letter followed by "." where it is guessed |
| `Derived.MaskFullIffWon` | src/App.jsx:165-170 | the pattern has no blank exactly when the game is won |
| `Derived.MaskAgreesWithTiles` | src/App.jsx:165-170 | while the game is not lost, an entry is the tile's letter followed by "." when the tile is revealed, and "blank." otherwise |
| `Derived.KeyFor` | src/App.jsx:59-61 | a key is guessed exactly when its letter was guessed; it is never both correct and wrong; it is one of them exactly when its letter was guessed; it is wrong exactly when its letter is a wrong guess |
| `Derived.Keyboard` | src/App.jsx:58-61 | one key per alphabet letter, in alphabet order; each key is correct exactly when its letter is guessed and in the word, and wrong exactly when guessed and not in the word |
| `Derived.WrongKeysAreWrongGuesses` | src/App.jsx:59-61 | the keys marked wrong are exactly the wrongly guessed letters, and for distinct guesses there are as many as the wrong-guess count |
| `Derived.CorrectKeysAreRightGuesses` | src/App.jsx:59-60 | the keys marked correct are exactly the guessed letters that occur in the word |
| `Derived.Chips` | src/App.jsx:81-82 | one chip per language; lost chips form a prefix (consumed left to right) |
| `Derived.LostChipCount` | src/App.jsx:82 | the number of lost chips is the wrong-guess count, capped at the number of chips |
| `Derived.GameStatus` | src/App.jsx:107-137 | the farewell is shown exactly for an incorrect last guess in a game not over; its index is the wrong-guess count minus one, at least 0 and at most the number of languages minus 3, so the lookup is in bounds; the win message only when won; the loss message only when lost and not won; nothing only when not over |
| `Rounds.Reachable` | src/App.jsx:71 | a list the gated keyboard can produce has no duplicates, and is empty when there is a single language |
| `Rounds.StartIsReachable` | src/App.jsx:10 | a round starts from the empty guess list |
| `Rounds.GuessKeepsReachable` | src/App.jsx:71 | a guess made while the game is not over yields a list the keyboard can reach |
| `Rounds.ReachableInvariant` | src/App.jsx:18-22 | in a round played through the keyboard, the guesses are distinct, at most lives - 1 are wrong, and the game is never both won and lost |
| `Rounds.WonAndLostIsUnreachable` | src/App.jsx:18-22 | a guess list that both wins and loses cannot be reached through the keyboard |
| `Rounds.LostAtLastLife` | src/App.jsx:21 | in such a round the game is lost exactly when lives - 1 guesses are wrong |
| `Rounds.LastChipNeverLost` | src/App.jsx:82 | in such a round the last chip is never lost, and the number of lost chips equals the wrong-guess count |
| `Rounds.StatusFollowsOutcome` | src/App.jsx:107-137 | in such a round the win message shows exactly when won, the loss message exactly when lost, and nothing exactly when in progress without an incorrect last guess |
| `Rounds.FreshRound` | src/App.jsx:53-56 | with no guesses: no wrong guess, no last guess, not won, and lost only when there is a single language |
| `Game.App.constructor` | src/App.jsx:9-10 | the first render holds the supplied word and no guesses, and satisfies the round invariant |
| `Game.App.AddGuessedLetter` | src/App.jsx:45-51 | the guesses become the updater's result on the old guesses, the word is unchanged, and the round invariant (distinct guesses, at most lives - 1 wrong, not both won and lost) still holds |
| `Game.App.StartNewGame` | src/App.jsx:53-56 | the word becomes the supplied word, the guesses are cleared, the wrong-guess count is zero, there is no last guess, and the game is lost only with a single language |
| `Scenarios.GuessingTheWordWins` | src/App.jsx:18-22 | with word "go", guessing g then o wins with no wrong guess, through the keyboard |
| `Scenarios.SevenMissesLose` | src/App.jsx:14-22 | with word "go" and eight languages, the seven misses a, b, c, d, e, f, h give seven wrong guesses and lose |
| `Scenarios.FirstMissSaysFarewellToFirstLanguage` | src/App.jsx:108-111 | with word "go", a first miss shows the farewell for the language at index 0 |
| `Scenarios.NoGuessNoLastLetter` | src/App.jsx:24-26 | before any guess there is no last guess and no status message |
| `Scenarios.UngatedGuessesWinAndLose` | src/App.jsx:45-51 | without the game-over gate, wrong letters added after a win still count, and enough of them leave the round both won and lost, which the keyboard cannot reach |

## Left out

- `Game.App.AddGuessedLetter`: requires the game not to be over. The handler itself does not check this; the keys are disabled while the game is over (`src/App.jsx:71`). `UngatedGuessesWinAndLose` states what the unguarded update does.
- `Game.App.StartNewGame`: takes the new word as a parameter. The random word source `getRandomWord` is not part of this model; the word is assumed non-empty and lower-case.
- The farewell text (`getFarewellText`) is not part of this model. `GameStatus` returns the index and the name of the language the farewell is about.
- The language records: only their names and their number are modelled, as a list of names; the number of lives is its length. Their colours are styling.
- The React state hooks and re-render scheduling. The two cells are plain fields, and each derived value is a function of them, evaluated on demand.
- JSX, class-name strings (`clsx`), styles, aria attributes, the upper-casing of displayed letters, the header text and the confetti animation: presentation only.
- The "New Game" button is only rendered once the game is over (`src/App.jsx:174-178`). The handler does not depend on that, so `StartNewGame` does not require it.
- The screen-reader sentence about the last guess and the constant `numberOfGuessesLeft` (`src/App.jsx:13`, `src/App.jsx:157-160`) are message formatting. With no guesses the sentence prints an undefined letter.
- Joining the screen-reader pattern with spaces (`src/App.jsx:170`): string formatting. `Mask` models the entries.
