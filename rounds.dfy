/**
 * The guess lists a round can reach through the keyboard. Every key is disabled
 * once the game is over, so a letter is only ever added while the game is in
 * progress; a key that was already guessed can still be pressed, and changes
 * nothing.
 */
module Rounds {
  import opened Derived

  /**
   * `guessed` was built from the empty list by guesses made while the game was
   * not over, each of them a letter not guessed before. Such a list has no
   * duplicates, and with a single language (already lost) it stays empty.
   */
  predicate Reachable(word: string, guessed: seq<char>, lives: nat)
    ensures Reachable(word, guessed, lives) ==> Distinct(guessed)
    ensures Reachable(word, guessed, lives) && guessed != [] ==> lives >= 2
    decreases |guessed|
  {
    guessed == [] ||
    var before := guessed[..|guessed| - 1];
    Reachable(word, before, lives) &&
    !IsGameOver(word, before, lives) &&
    guessed[|guessed| - 1] !in before
  }

  /** A round starts from no guesses. */
  lemma StartIsReachable(word: string, lives: nat)
    ensures Reachable(word, [], lives)
  {
  }

  /** A guess made while the game is not over leads to a reachable list again. */
  lemma GuessKeepsReachable(word: string, guessed: seq<char>, lives: nat, letter: char)
    requires Reachable(word, guessed, lives) && !IsGameOver(word, guessed, lives)
    ensures Reachable(word, AddGuess(guessed, letter), lives)
  {
    if letter !in guessed {
      assert (guessed + [letter])[..|guessed|] == guessed;
    }
  }

  /**
   * The invariants of a round played through the keyboard: the guesses are
   * distinct, at most lives - 1 of them are wrong, and the game is never both
   * won and lost.
   */
  lemma {:induction false} ReachableInvariant(word: string, guessed: seq<char>, lives: nat)
    requires |word| > 0 && lives >= 1
    requires Reachable(word, guessed, lives)
    ensures Distinct(guessed)
    ensures WrongGuessCount(word, guessed) <= lives - 1
    ensures !(IsGameWon(word, guessed) && IsGameLost(word, guessed, lives))
  {
    if guessed == [] {
      assert word[0] !in guessed;
    } else {
      var before, letter := guessed[..|guessed| - 1], guessed[|guessed| - 1];
      assert guessed == before + [letter];
      ReachableInvariant(word, before, lives);
      WrongGuessCountAppend(word, before, letter);
      assert guessed == AddGuess(before, letter);
      if letter !in word {
        WrongGuessDoesNotWin(word, before, letter);
      }
    }
  }

  /** A guess list that both wins and loses cannot come from the keyboard. */
  lemma WonAndLostIsUnreachable(word: string, guessed: seq<char>, lives: nat)
    requires |word| > 0 && lives >= 1
    requires IsGameWon(word, guessed) && IsGameLost(word, guessed, lives)
    ensures !Reachable(word, guessed, lives)
  {
    if Reachable(word, guessed, lives) {
      ReachableInvariant(word, guessed, lives);
    }
  }

  /** In a round played through the keyboard, the game is lost exactly when lives - 1 guesses are wrong. */
  lemma LostAtLastLife(word: string, guessed: seq<char>, lives: nat)
    requires |word| > 0 && lives >= 1
    requires Reachable(word, guessed, lives)
    ensures IsGameLost(word, guessed, lives) <==> WrongGuessCount(word, guessed) == lives - 1
  {
    ReachableInvariant(word, guessed, lives);
  }

  /** The last chip (the last language) is never marked lost. */
  lemma LastChipNeverLost(word: string, guessed: seq<char>, lives: nat)
    requires |word| > 0 && lives >= 1
    requires Reachable(word, guessed, lives)
    ensures !Chips(word, guessed, lives)[lives - 1]
    ensures CountTrue(Chips(word, guessed, lives)) == WrongGuessCount(word, guessed)
  {
    ReachableInvariant(word, guessed, lives);
    LostChipCount(word, guessed, lives);
  }

  /**
   * In a round played through the keyboard the status region shows the win
   * message exactly when the game is won, the loss message exactly when it is
   * lost, and a farewell only for a wrong last guess in a game still in progress.
   */
  lemma StatusFollowsOutcome(word: string, guessed: seq<char>, languages: seq<string>)
    requires |word| > 0 && |languages| >= 1
    requires Reachable(word, guessed, |languages|)
    ensures GameStatus(word, guessed, languages).WonMessage? <==> IsGameWon(word, guessed)
    ensures GameStatus(word, guessed, languages).LostMessage? <==> IsGameLost(word, guessed, |languages|)
    ensures GameStatus(word, guessed, languages).NoMessage? <==>
      !IsGameOver(word, guessed, |languages|) && !IsLastGuessIncorrect(word, guessed)
  {
    ReachableInvariant(word, guessed, |languages|);
  }

  /** A new round has no guesses, no wrong guesses and no last guess, and is not lost when there are two lives or more. */
  lemma FreshRound(word: string, lives: nat)
    requires |word| > 0
    ensures WrongGuessCount(word, []) == 0
    ensures LastGuessedLetter([]) == None && !IsLastGuessIncorrect(word, [])
    ensures !IsGameWon(word, [])
    ensures IsGameLost(word, [], lives) <==> lives <= 1
  {
    assert word[0] !in [];
  }
}
