/**
 * The values the App component of the word-guessing game derives from its two
 * state cells, the secret word and the ordered list of guessed letters, on every
 * render. Each is a pure function of those cells (and of the number of lives,
 * `languages.length`); none is stored.
 */
module Derived {

  datatype Option<T> = None | Some(value: T)

  /** The keyboard's letters, in the order the keys are laid out. */
  const Alphabet: string := "abcdefghijklmnopqrstuvwxyz"

  predicate IsLetter(c: char) {
    'a' <= c <= 'z'
  }

  /** A secret word as the word source supplies it: non-empty, lower-case letters. */
  predicate IsWord(word: string) {
    |word| > 0 && forall i :: 0 <= i < |word| ==> IsLetter(word[i])
  }

  predicate AllLetters(s: seq<char>) {
    forall c :: c in s ==> IsLetter(c)
  }

  predicate Distinct(s: seq<char>) {
    forall i, j :: 0 <= i < j < |s| ==> s[i] != s[j]
  }

  lemma AlphabetIsTheLetters(c: char)
    ensures c in Alphabet <==> IsLetter(c)
  {
    if IsLetter(c) {
      assert Alphabet[c as int - 'a' as int] == c;
    }
  }

  /* ---------------------------------------------------------------------- */
  /* Guessed letters                                                          */
  /* ---------------------------------------------------------------------- */

  /** The updater given to the guessed-letters cell: append the letter unless it is already there. */
  function AddGuess(guessed: seq<char>, letter: char): (r: seq<char>)
    ensures forall c :: c in r <==> c in guessed || c == letter
    ensures |guessed| <= |r| <= |guessed| + 1
    ensures r[..|guessed|] == guessed
    ensures Distinct(guessed) ==> Distinct(r)
  {
    if letter in guessed then guessed else guessed + [letter]
  }

  /** Guessing a letter that was already guessed changes nothing. */
  lemma AddGuessKnown(guessed: seq<char>, letter: char)
    requires letter in guessed
    ensures AddGuess(guessed, letter) == guessed
  {
  }

  /** Guessing a new letter appends it: earlier guesses keep their places, the list grows by one and the letter becomes the last guess. */
  lemma AddGuessFresh(guessed: seq<char>, letter: char)
    requires letter !in guessed
    ensures |AddGuess(guessed, letter)| == |guessed| + 1
    ensures forall i :: 0 <= i < |guessed| ==> AddGuess(guessed, letter)[i] == guessed[i]
    ensures LastGuessedLetter(AddGuess(guessed, letter)) == Some(letter)
  {
  }

  /** Guessing is idempotent. */
  lemma AddGuessIdempotent(guessed: seq<char>, letter: char)
    ensures AddGuess(AddGuess(guessed, letter), letter) == AddGuess(guessed, letter)
  {
  }

  /** The most recently appended guess, absent (undefined in the source) while nothing is guessed. */
  function LastGuessedLetter(guessed: seq<char>): (r: Option<char>)
    ensures r.None? <==> guessed == []
    ensures r.Some? ==> r.value in guessed
  {
    if guessed == [] then None else Some(guessed[|guessed| - 1])
  }

  /* ---------------------------------------------------------------------- */
  /* Wrong guesses                                                            */
  /* ---------------------------------------------------------------------- */

  /** The guessed letters that do not occur in the word, in guessing order (the `filter`). */
  function WrongGuesses(word: string, guessed: seq<char>): (r: seq<char>)
    ensures |r| <= |guessed|
    ensures forall c :: c in r <==> c in guessed && c !in word
  {
    if guessed == [] then []
    else
      assert forall c :: c in guessed <==> c == guessed[0] || c in guessed[1..];
      (if guessed[0] in word then [] else [guessed[0]]) + WrongGuesses(word, guessed[1..])
  }

  function WrongGuessCount(word: string, guessed: seq<char>): (n: nat)
    ensures n <= |guessed|
    ensures n == 0 <==> forall c :: c in guessed ==> c in word
  {
    var wrong := WrongGuesses(word, guessed);
    assert wrong != [] ==> wrong[0] in wrong;
    |wrong|
  }

  /** Appending a letter extends the wrong guesses by that letter exactly when it is not in the word. */
  lemma {:induction false} WrongGuessesAppend(word: string, guessed: seq<char>, letter: char)
    ensures WrongGuesses(word, guessed + [letter])
         == WrongGuesses(word, guessed) + (if letter in word then [] else [letter])
  {
    if guessed != [] {
      assert (guessed + [letter])[1..] == guessed[1..] + [letter];
      WrongGuessesAppend(word, guessed[1..], letter);
    } else {
      assert [] + [letter] == [letter];
    }
  }

  /** Filtering distributes over concatenation: the wrong guesses of two stretches of guesses, one after the other. */
  lemma {:induction false} WrongGuessesConcat(word: string, first: seq<char>, second: seq<char>)
    ensures WrongGuesses(word, first + second) == WrongGuesses(word, first) + WrongGuesses(word, second)
  {
    if first == [] {
      assert first + second == second;
    } else {
      assert (first + second)[1..] == first[1..] + second;
      WrongGuessesConcat(word, first[1..], second);
    }
  }

  /** When none of the guessed letters is in the word, every guess is a wrong guess. */
  lemma {:induction false} AllMissesAreWrong(word: string, guessed: seq<char>)
    requires forall i :: 0 <= i < |guessed| ==> guessed[i] !in word
    ensures WrongGuesses(word, guessed) == guessed
  {
    if guessed != [] {
      AllMissesAreWrong(word, guessed[1..]);
    }
  }

  /** A right guess leaves the wrong-guess count alone; a wrong one raises it by exactly one. */
  lemma WrongGuessCountAppend(word: string, guessed: seq<char>, letter: char)
    ensures WrongGuessCount(word, guessed + [letter])
         == WrongGuessCount(word, guessed) + (if letter in word then 0 else 1)
  {
    WrongGuessesAppend(word, guessed, letter);
  }

  /** The wrong-guess count after a guess, in terms of the count before it. */
  lemma WrongGuessCountAfterGuess(word: string, guessed: seq<char>, letter: char)
    ensures WrongGuessCount(word, AddGuess(guessed, letter))
         == WrongGuessCount(word, guessed) + (if letter in word || letter in guessed then 0 else 1)
  {
    if letter !in guessed {
      WrongGuessCountAppend(word, guessed, letter);
    }
  }

  /** The set of letters that were guessed and are not in the word. */
  ghost function WrongLetters(word: string, guessed: seq<char>): set<char> {
    set c | c in guessed && c !in word
  }

  /** For a duplicate-free guess list, the count is the number of distinct wrong letters. */
  lemma {:induction false} WrongGuessCountIsWrongLetters(word: string, guessed: seq<char>)
    requires Distinct(guessed)
    ensures WrongGuessCount(word, guessed) == |WrongLetters(word, guessed)|
  {
    if guessed == [] {
      assert WrongLetters(word, guessed) == {};
    } else {
      var x, rest := guessed[0], guessed[1..];
      assert Distinct(rest);
      WrongGuessCountIsWrongLetters(word, rest);
      assert x !in rest;
      if x in word {
        assert WrongLetters(word, guessed) == WrongLetters(word, rest);
      } else {
        assert WrongLetters(word, guessed) == WrongLetters(word, rest) + {x};
        assert x !in WrongLetters(word, rest);
      }
    }
  }

  /* ---------------------------------------------------------------------- */
  /* Outcome                                                                  */
  /* ---------------------------------------------------------------------- */

  /** Every letter of the word (by position) has been guessed. */
  predicate IsGameWon(word: string, guessed: seq<char>)
    ensures IsGameWon(word, guessed) <==> forall c :: c in word ==> c in guessed
  {
    forall i :: 0 <= i < |word| ==> word[i] in guessed
  }

  /** As many wrong guesses as there are lives but one. */
  predicate IsGameLost(word: string, guessed: seq<char>, lives: nat)
    ensures lives <= 1 ==> IsGameLost(word, guessed, lives)
    ensures IsGameLost(word, guessed, lives) && lives >= 2 ==>
      |guessed| >= lives - 1 && exists c :: c in guessed && c !in word
  {
    WrongGuessCount(word, guessed) >= lives - 1
  }

  /** Won or lost; while it is not, some letter of the word is unguessed and a wrong guess is still allowed. */
  predicate IsGameOver(word: string, guessed: seq<char>, lives: nat)
    ensures !IsGameOver(word, guessed, lives) ==>
      (exists i :: 0 <= i < |word| && word[i] !in guessed) && WrongGuessCount(word, guessed) + 1 < lives
  {
    IsGameWon(word, guessed) || IsGameLost(word, guessed, lives)
  }

  /** The last guess exists and does not occur in the word, so it is the last of the wrong guesses. */
  predicate IsLastGuessIncorrect(word: string, guessed: seq<char>)
    ensures IsLastGuessIncorrect(word, guessed) <==>
      guessed != [] && guessed[|guessed| - 1] in WrongGuesses(word, guessed)
  {
    match LastGuessedLetter(guessed)
    case None => false
    case Some(c) => c !in word
  }

  /** Winning means the set of the word's letters is covered by the guesses. */
  lemma WonIffLettersCovered(word: string, guessed: seq<char>)
    ensures IsGameWon(word, guessed) <==> (set c | c in word) <= (set c | c in guessed)
  {
    var letters, covered := set c | c in word, set c | c in guessed;
    if letters <= covered {
      forall i | 0 <= i < |word| ensures word[i] in guessed {
        assert word[i] in letters;
      }
    }
  }

  /** Once won, guessing more keeps the game won. */
  lemma WonIsMonotone(word: string, guessed: seq<char>, letter: char)
    requires IsGameWon(word, guessed)
    ensures IsGameWon(word, AddGuess(guessed, letter))
  {
  }

  /** Once lost, guessing more keeps the game lost. */
  lemma LostIsMonotone(word: string, guessed: seq<char>, lives: nat, letter: char)
    requires IsGameLost(word, guessed, lives)
    ensures IsGameLost(word, AddGuess(guessed, letter), lives)
  {
    WrongGuessCountAfterGuess(word, guessed, letter);
  }

  /** A guess of a letter that is not in the word cannot win a game that was not won. */
  lemma WrongGuessDoesNotWin(word: string, guessed: seq<char>, letter: char)
    requires letter !in word && !IsGameWon(word, guessed)
    ensures !IsGameWon(word, AddGuess(guessed, letter))
  {
    var i :| 0 <= i < |word| && word[i] !in guessed;
    assert word[i] != letter;
  }

  /** A wrong last guess has been counted, so the count is at least one. */
  lemma LastIncorrectIsCounted(word: string, guessed: seq<char>)
    requires IsLastGuessIncorrect(word, guessed)
    ensures WrongGuessCount(word, guessed) >= 1
  {
    var c := guessed[|guessed| - 1];
    assert c in guessed && c !in word;
  }

  /** After a fresh guess, the last guess is incorrect exactly when the letter is not in the word. */
  lemma LastGuessIncorrectAfterGuess(word: string, guessed: seq<char>, letter: char)
    requires letter !in guessed
    ensures IsLastGuessIncorrect(word, AddGuess(guessed, letter)) <==> letter !in word
  {
  }

  /* ---------------------------------------------------------------------- */
  /* What the screen shows                                                    */
  /* ---------------------------------------------------------------------- */

  /** One tile of the word: its letter, whether it is shown and whether it is marked as missed. */
  datatype Tile = Tile(letter: char, revealed: bool, missed: bool)

  function Tiles(word: string, guessed: seq<char>, lives: nat): (r: seq<Tile>)
    ensures |r| == |word|
    ensures forall i :: 0 <= i < |r| ==> r[i].letter == word[i]
    ensures forall i :: 0 <= i < |r| ==>
      (r[i].revealed <==> IsGameLost(word, guessed, lives) || word[i] in guessed)
    ensures forall i :: 0 <= i < |r| && r[i].missed ==> r[i].revealed && word[i] !in guessed
  {
    var lost := IsGameLost(word, guessed, lives);
    seq(|word|, i requires 0 <= i < |word| =>
      Tile(word[i], lost || word[i] in guessed, lost && word[i] !in guessed))
  }

  /** Every tile is shown exactly when the game is over. */
  lemma AllRevealedIffOver(word: string, guessed: seq<char>, lives: nat)
    ensures (forall i :: 0 <= i < |word| ==> Tiles(word, guessed, lives)[i].revealed)
        <==> IsGameOver(word, guessed, lives)
  {
    var t := Tiles(word, guessed, lives);
    if !IsGameLost(word, guessed, lives) && forall i :: 0 <= i < |word| ==> t[i].revealed {
      forall i | 0 <= i < |word| ensures word[i] in guessed {
        assert t[i].revealed;
      }
    }
  }

  /** A tile is marked missed only when the game is lost, and then exactly when its letter is unguessed. */
  lemma MissedTiles(word: string, guessed: seq<char>, lives: nat, i: nat)
    requires i < |word|
    ensures Tiles(word, guessed, lives)[i].missed
        <==> IsGameLost(word, guessed, lives) && word[i] !in guessed
  {
  }

  /** The screen-reader pattern of the word: "x." for a guessed letter, "blank." otherwise. */
  function Mask(word: string, guessed: seq<char>): (r: seq<string>)
    ensures |r| == |word|
    ensures forall i :: 0 <= i < |r| ==> (r[i] == "blank." <==> word[i] !in guessed)
    ensures forall i :: 0 <= i < |r| && word[i] in guessed ==> r[i] == [word[i], '.']
  {
    seq(|word|, i requires 0 <= i < |word| =>
      if word[i] in guessed then [word[i], '.'] else "blank.")
  }

  /** No blanks are left in the pattern exactly when the game is won. */
  lemma MaskFullIffWon(word: string, guessed: seq<char>)
    ensures ("blank." !in Mask(word, guessed)) <==> IsGameWon(word, guessed)
  {
    var m := Mask(word, guessed);
    if "blank." !in m {
      forall i | 0 <= i < |word| ensures word[i] in guessed {
        assert m[i] != "blank.";
      }
    }
  }

  /** While the game is not lost, the pattern shows a tile's letter exactly where the tile row reveals it, and "blank." elsewhere. */
  lemma MaskAgreesWithTiles(word: string, guessed: seq<char>, lives: nat, i: nat)
    requires i < |word| && !IsGameLost(word, guessed, lives)
    ensures Mask(word, guessed)[i] ==
      if Tiles(word, guessed, lives)[i].revealed then [Tiles(word, guessed, lives)[i].letter, '.'] else "blank."
  {
  }

  /** One keyboard key and its flags. */
  datatype Key = Key(letter: char, isGuessed: bool, isCorrect: bool, isWrong: bool)

  function KeyFor(word: string, guessed: seq<char>, letter: char): (k: Key)
    ensures k.letter == letter
    ensures k.isGuessed <==> letter in guessed
    ensures !(k.isCorrect && k.isWrong)
    ensures k.isCorrect || k.isWrong <==> letter in guessed
    ensures k.isWrong <==> letter in WrongGuesses(word, guessed)
  {
    var isGuessed := letter in guessed;
    Key(letter, isGuessed, isGuessed && letter in word, isGuessed && letter !in word)
  }

  function Keyboard(word: string, guessed: seq<char>): (r: seq<Key>)
    ensures |r| == |Alphabet|
    ensures forall i :: 0 <= i < |r| ==> r[i].letter == Alphabet[i]
    ensures forall i :: 0 <= i < |r| ==>
      (r[i].isCorrect <==> Alphabet[i] in guessed && Alphabet[i] in word) &&
      (r[i].isWrong <==> Alphabet[i] in guessed && Alphabet[i] !in word)
  {
    seq(|Alphabet|, i requires 0 <= i < |Alphabet| => KeyFor(word, guessed, Alphabet[i]))
  }

  /** The keys marked wrong are exactly the wrongly guessed letters, and for distinct letter guesses there are as many as the wrong-guess count. */
  lemma WrongKeysAreWrongGuesses(word: string, guessed: seq<char>)
    requires AllLetters(guessed)
    ensures (set k | k in Keyboard(word, guessed) && k.isWrong :: k.letter) == WrongLetters(word, guessed)
    ensures Distinct(guessed) ==>
      |set k | k in Keyboard(word, guessed) && k.isWrong :: k.letter| == WrongGuessCount(word, guessed)
  {
    var keys := Keyboard(word, guessed);
    var marked := set k | k in keys && k.isWrong :: k.letter;
    forall c | c in WrongLetters(word, guessed) ensures c in marked {
      AlphabetIsTheLetters(c);
      var i :| 0 <= i < |guessed| && guessed[i] == c;
      var j :| 0 <= j < |Alphabet| && Alphabet[j] == c;
      assert keys[j] in keys && keys[j].isWrong;
    }
    if Distinct(guessed) {
      WrongGuessCountIsWrongLetters(word, guessed);
    }
  }

  /** The keys marked correct are exactly the guessed letters that occur in the word. */
  lemma CorrectKeysAreRightGuesses(word: string, guessed: seq<char>)
    requires AllLetters(guessed)
    ensures (set k | k in Keyboard(word, guessed) && k.isCorrect :: k.letter)
         == (set c | c in guessed && c in word)
  {
    var keys := Keyboard(word, guessed);
    var marked := set k | k in keys && k.isCorrect :: k.letter;
    forall c | c in guessed && c in word ensures c in marked {
      AlphabetIsTheLetters(c);
      var j :| 0 <= j < |Alphabet| && Alphabet[j] == c;
      assert keys[j] in keys && keys[j].isCorrect;
    }
  }

  /** Chip i (one per language) is lost once i falls below the wrong-guess count. */
  function Chips(word: string, guessed: seq<char>, lives: nat): (r: seq<bool>)
    ensures |r| == lives
    ensures forall i, j :: 0 <= j <= i < lives && r[i] ==> r[j]
  {
    var wrong := WrongGuessCount(word, guessed);
    seq(lives, i => i < wrong)
  }

  /** The number of flags that are set. */
  function CountTrue(flags: seq<bool>): nat {
    if flags == [] then 0
    else CountTrue(flags[..|flags| - 1]) + (if flags[|flags| - 1] then 1 else 0)
  }

  /** The number of lost chips is the wrong-guess count, capped at the number of chips. */
  lemma LostChipCount(word: string, guessed: seq<char>, lives: nat)
    ensures CountTrue(Chips(word, guessed, lives)) ==
            if WrongGuessCount(word, guessed) < lives then WrongGuessCount(word, guessed) else lives
  {
    LostPrefixCount(WrongGuessCount(word, guessed), lives);
  }

  lemma {:induction false} LostPrefixCount(wrong: nat, n: nat)
    ensures CountTrue(seq(n, i => i < wrong)) == if wrong < n then wrong else n
  {
    if n > 0 {
      LostPrefixCount(wrong, n - 1);
      assert seq(n, i => i < wrong)[..n - 1] == seq(n - 1, i => i < wrong);
    }
  }

  /* ---------------------------------------------------------------------- */
  /* The status region                                                        */
  /* ---------------------------------------------------------------------- */

  /** What the status region renders: a farewell for the language just lost, a win, a loss, or nothing. */
  datatype Status = Farewell(index: nat, language: string) | WonMessage | LostMessage | NoMessage

  /**
   * The status region, branch by branch in the source's order. The farewell
   * looks up `languages[wrongGuessCount - 1]`; the lookup is in bounds on every input.
   */
  function GameStatus(word: string, guessed: seq<char>, languages: seq<string>): (r: Status)
    ensures r.Farewell? <==>
      !IsGameOver(word, guessed, |languages|) && IsLastGuessIncorrect(word, guessed)
    ensures r.Farewell? ==>
      r.index + 1 == WrongGuessCount(word, guessed) && r.index + 2 < |languages| &&
      r.language == languages[r.index]
    ensures r.WonMessage? ==> IsGameWon(word, guessed)
    ensures r.LostMessage? ==> IsGameLost(word, guessed, |languages|) && !IsGameWon(word, guessed)
    ensures r.NoMessage? ==> !IsGameOver(word, guessed, |languages|)
  {
    var lives := |languages|;
    if !IsGameOver(word, guessed, lives) && IsLastGuessIncorrect(word, guessed) then
      LastIncorrectIsCounted(word, guessed);
      var index := WrongGuessCount(word, guessed) - 1;
      Farewell(index, languages[index])
    else if IsGameWon(word, guessed) then WonMessage
    else if IsGameLost(word, guessed, lives) then LostMessage
    else NoMessage
  }
}
