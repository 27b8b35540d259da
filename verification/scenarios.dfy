/**
 Concrete turns on small words, as a player would play them: the effect of
 each guess is computed from the state the previous guess left. They include
 the rule that a letter whose positions are all already revealed counts as a
 wrong guess. Each turn is a lemma of its own; how turns compose into a round
 is stated once, in general, by `Round.RunFirstTurn`.
 */
module Scenarios {
  import opened Ascii
  import opened Hangman
  import opened Round

  // ---------------------------------------------------------------------------
  // "cat", guessed c, a, t: two correct guesses, then the win
  // ---------------------------------------------------------------------------

  lemma CatStart()
    ensures InitialMask("cat") == [false, false, false]
  {
  }

  lemma CatTurnC()
    ensures Step("cat", [false, false, false], [], 'c') == Turn([true, false, false], [], Correct)
  {
  }

  lemma CatTurnA()
    ensures Step("cat", [true, false, false], [], 'a') == Turn([true, true, false], [], Correct)
  {
  }

  lemma CatTurnT()
    ensures Step("cat", [true, true, false], [], 't') == Turn([true, true, true], [], Won)
  {
  }

  // ---------------------------------------------------------------------------
  // "cat", six misses
  // ---------------------------------------------------------------------------

  /**
   Six distinct letters absent from "cat" lose the round with all six on the
   wrong list and nothing revealed. The word and the guesses are parameters
   fixed by the precondition rather than literals in the conclusion, so that
   the solver does not unfold `Run` on the literal input turn by turn; the
   proof goes through the general `AllMissesLose` instead.
   */
  lemma SixMissesLose(word: string, guesses: string)
    requires word == "cat" && guesses == "xyzwqj"
    ensures Run(word, InitialMask(word), [], guesses)
            == RunResult([false, false, false], "xyzwqj", Ended(false),
                         [WrongNew, WrongNew, WrongNew, WrongNew, WrongNew, Lost])
  {
    CatStart();
    SixMissTrace();
    AllMissesLose(word, [false, false, false], [], guesses);
  }

  lemma SixMissTrace()
    ensures MissTrace(6) == [WrongNew, WrongNew, WrongNew, WrongNew, WrongNew, Lost]
  {
  }

  // ---------------------------------------------------------------------------
  // "book", guessed o, o, b, k: the second o is wrong although o is in the word
  // ---------------------------------------------------------------------------

  lemma BookStart()
    ensures InitialMask("book") == [false, false, false, false]
  {
  }

  /** The first o reveals both o positions. */
  lemma BookTurnO()
    ensures Step("book", [false, false, false, false], [], 'o') == Turn([false, true, true, false], [], Correct)
  {
  }

  /** The second o reveals nothing, so it is a wrong guess and goes on the wrong list. */
  lemma BookTurnOAgain()
    ensures Step("book", [false, true, true, false], [], 'o') == Turn([false, true, true, false], "o", WrongNew)
  {
  }

  lemma BookTurnB()
    ensures Step("book", [false, true, true, false], "o", 'b') == Turn([true, true, true, false], "o", Correct)
  {
  }

  lemma BookTurnK()
    ensures Step("book", [true, true, true, false], "o", 'k') == Turn([true, true, true, true], "o", Won)
  {
  }

  // ---------------------------------------------------------------------------
  // Invalid input, repeated misses, upper case
  // ---------------------------------------------------------------------------

  /** A digit is rejected in any state: nothing is revealed, nothing is added, no attempt is used. */
  lemma DigitIsInvalid(word: string, mask: seq<bool>, wrong: seq<char>)
    requires InPlay(word, mask, wrong)
    ensures Step(word, mask, wrong, '5') == Turn(mask, wrong, Invalid)
  {
  }

  /** A missed letter uses one attempt the first time. */
  lemma CatMissZ()
    ensures Step("cat", [false, false, false], [], 'z') == Turn([false, false, false], "z", WrongNew)
  {
  }

  /** The same missed letter again is a repeat and changes nothing. */
  lemma CatMissZAgain()
    ensures Step("cat", [false, false, false], "z", 'z') == Turn([false, false, false], "z", WrongRepeat)
  {
  }

  /** Upper-case input is lower-cased before the scan. */
  lemma UpperCaseGuessMatches()
    ensures Step("cat", [false, false, false], [], 'C') == Turn([true, false, false], [], Correct)
  {
  }

  /** A missed upper-case letter is recorded in lower case. */
  lemma UpperCaseMissRecordedLowerCase()
    ensures Step("cat", [false, false, false], [], 'Z') == Turn([false, false, false], "z", WrongNew)
  {
  }
}
