/**
 * Concrete rounds with the secret word "go" and eight languages (the header
 * promises 8 attempts), and what happens to a finished round if a letter were
 * added without the keyboard's game-over gate.
 */
module Scenarios {
  import opened Derived
  import opened Rounds

  /** Guessing "g" then "o" wins without a wrong guess. */
  lemma GuessingTheWordWins()
    ensures IsGameWon("go", "go")
    ensures WrongGuessCount("go", "go") == 0
    ensures !IsGameLost("go", "go", 8)
    ensures Reachable("go", "go", 8)
  {
    var g1, g2 := AddGuess([], 'g'), AddGuess(AddGuess([], 'g'), 'o');
    assert g1 == "g" && g2 == "go";
    WrongGuessCountAppend("go", [], 'g');
    WrongGuessCountAppend("go", g1, 'o');
    assert "go"[1] !in g1;
    GuessKeepsReachable("go", [], 8, 'g');
    GuessKeepsReachable("go", g1, 8, 'o');
  }

  /** Seven wrong letters lose the round against eight languages. */
  lemma SevenMissesLose()
    ensures WrongGuessCount("go", "abcdefh") == 7
    ensures IsGameLost("go", "abcdefh", 8) && !IsGameWon("go", "abcdefh")
  {
    assert forall i :: 0 <= i < 7 ==> "abcdefh"[i] !in "go";
    AllMissesAreWrong("go", "abcdefh");
    assert "go"[0] !in "abcdefh";
  }

  /** A first wrong letter shows the farewell for the first language. */
  lemma FirstMissSaysFarewellToFirstLanguage(languages: seq<string>)
    requires |languages| == 8
    ensures IsLastGuessIncorrect("go", "a")
    ensures GameStatus("go", "a", languages) == Farewell(0, languages[0])
  {
    WrongGuessCountAppend("go", [], 'a');
    assert [] + ['a'] == "a";
    assert WrongGuessCount("go", "a") == 1;
    assert "go"[0] !in "a";
    assert !IsGameOver("go", "a", 8);
    assert LastGuessedLetter("a") == Some('a');
  }

  /** Before any guess there is no last guess and no farewell. */
  lemma NoGuessNoLastLetter(languages: seq<string>)
    requires |languages| == 8
    ensures LastGuessedLetter("") == None
    ensures GameStatus("go", "", languages) == NoMessage
  {
    FreshRound("go", 8);
  }

  /**
   * Without the gate, letters added to a won round still count: enough wrong
   * letters after a win make the round both won and lost (with "go" and eight
   * languages: "go" followed by seven misses). Such a list is not reachable
   * through the keyboard.
   */
  lemma UngatedGuessesWinAndLose(word: string, won: seq<char>, misses: seq<char>, lives: nat)
    requires |word| > 0 && lives >= 1
    requires IsGameWon(word, won)
    requires forall i :: 0 <= i < |misses| ==> misses[i] !in word
    requires |misses| >= lives - 1
    ensures IsGameWon(word, won + misses) && IsGameLost(word, won + misses, lives)
    ensures !Reachable(word, won + misses, lives)
  {
    WrongGuessesConcat(word, won, misses);
    AllMissesAreWrong(word, misses);
    WonAndLostIsUnreachable(word, won + misses, lives);
  }
}
