/**
 * The App component's state: the secret word and the ordered guessed letters,
 * the two cells its event handlers update. The languages (one chip, one life
 * each) are fixed configuration; only their names are kept.
 */
module Game {
  import opened Derived
  import opened Rounds

  class App {
    var currentWord: string
    var guessedLetters: seq<char>
    const languages: seq<string>

    /** The state a round played through the on-screen keyboard is always in. */
    ghost predicate Valid()
      reads this
    {
      |languages| >= 1 &&
      IsWord(currentWord) &&
      AllLetters(guessedLetters) &&
      Reachable(currentWord, guessedLetters, |languages|)
    }

    /** The initial render: a word from the word source and no guesses. */
    constructor (word: string, languages: seq<string>)
      requires IsWord(word) && |languages| >= 1
      ensures Valid()
      ensures currentWord == word && guessedLetters == [] && this.languages == languages
    {
      currentWord := word;
      guessedLetters := [];
      this.languages := languages;
    }

    /**
     * A key press. The key is disabled once the game is over, so the game is
     * in progress; the letter is appended unless it is already there.
     */
    method AddGuessedLetter(letter: char)
      requires Valid() && IsLetter(letter)
      requires !IsGameOver(currentWord, guessedLetters, |languages|)
      modifies this
      ensures Valid()
      ensures currentWord == old(currentWord)
      ensures guessedLetters == AddGuess(old(guessedLetters), letter)
      ensures Distinct(guessedLetters)
      ensures WrongGuessCount(currentWord, guessedLetters) <= |languages| - 1
      ensures !(IsGameWon(currentWord, guessedLetters) && IsGameLost(currentWord, guessedLetters, |languages|))
    {
      var next := AddGuess(guessedLetters, letter);
      GuessKeepsReachable(currentWord, guessedLetters, |languages|, letter);
      ReachableInvariant(currentWord, next, |languages|);
      guessedLetters := next;
    }

    /** The "New Game" button: a new word from the word source, and the guesses cleared. */
    method StartNewGame(word: string)
      requires Valid() && IsWord(word)
      modifies this
      ensures Valid()
      ensures currentWord == word && guessedLetters == []
      ensures WrongGuessCount(currentWord, guessedLetters) == 0
      ensures LastGuessedLetter(guessedLetters) == None
      ensures IsGameLost(currentWord, guessedLetters, |languages|) <==> |languages| == 1
    {
      currentWord := word;
      guessedLetters := [];
      FreshRound(word, |languages|);
    }
  }
}
