/**
 A whole round of Hangman: the guess loop of `playHangman`, which applies one
 turn per character typed until the word is guessed or the wrong list is
 full. The player's input is a finite sequence of characters; a round that
 runs out of input before either end is reported as still in play.
 */
module Round {
  import opened Ascii
  import opened Hangman

  /** Where a round stands. */
  datatype Status = Playing | Ended(won: bool)

  /** The state a round reached, with the classification of every turn taken, in order. */
  datatype RunResult = RunResult(mask: seq<bool>, wrong: seq<char>, status: Status, trace: seq<Outcome>)

  /** Two runs ended in the same state. */
  predicate SameEnd(r: RunResult, r': RunResult) {
    r.mask == r'.mask && r.wrong == r'.wrong && r.status == r'.status
  }

  /** No letter occurs twice. */
  predicate NoDuplicates(s: seq<char>) {
    forall i, j :: 0 <= i < j < |s| ==> s[i] != s[j]
  }

  /** What holds of a round's state at every point: the mask fits the word, the wrong list holds distinct lower-case letters and never more than the budget. */
  predicate Valid(word: string, mask: seq<bool>, wrong: seq<char>) {
    && |mask| == |word|
    && |wrong| <= MaxAttempts
    && NoDuplicates(wrong)
    && forall k :: 0 <= k < |wrong| ==> IsLower(wrong[k])
  }

  /** A valid state in which the loop guard still admits a turn. */
  predicate InPlay(word: string, mask: seq<bool>, wrong: seq<char>) {
    Valid(word, mask, wrong) && |wrong| < MaxAttempts
  }

  /** Hidden positions plus attempts left; every turn that changes the state lowers it. */
  function Measure(mask: seq<bool>, wrong: seq<char>): nat
    requires |wrong| <= MaxAttempts
  {
    HiddenCount(mask) + AttemptsLeft(wrong)
  }

  /** The number of turns in a trace that changed the state. */
  function ProgressCount(trace: seq<Outcome>): (n: nat)
    ensures n <= |trace|
  {
    if |trace| == 0 then 0
    else (if trace[0].IsProgress() then 1 else 0) + ProgressCount(trace[1..])
  }

  /** A turn taken in play leaves a valid state, and one still in play unless the round was lost. */
  lemma StepPreservesValid(word: string, mask: seq<bool>, wrong: seq<char>, c: char)
    requires InPlay(word, mask, wrong)
    ensures Valid(word, Step(word, mask, wrong, c).mask, Step(word, mask, wrong, c).wrong)
    ensures Step(word, mask, wrong, c).outcome != Lost ==>
              InPlay(word, Step(word, mask, wrong, c).mask, Step(word, mask, wrong, c).wrong)
  {
    var t := Step(word, mask, wrong, c);
    StepOutcome(word, mask, wrong, c);
    StepWrongList(word, mask, wrong, c);
    if t.outcome.WrongNew? || t.outcome.Lost? {
      forall i, j | 0 <= i < j < |t.wrong|
        ensures t.wrong[i] != t.wrong[j]
      {
        if j == |wrong| {
          assert wrong[i] in wrong;
        }
      }
    }
  }

  /**
   Every turn that changes the state strictly lowers the number of hidden
   positions plus the attempts left; a turn that does not (invalid input or a
   repeated wrong letter) leaves the state exactly as it was.
   */
  lemma StepMeasureDecreases(word: string, mask: seq<bool>, wrong: seq<char>, c: char)
    requires InPlay(word, mask, wrong)
    ensures var t := Step(word, mask, wrong, c);
            if t.outcome.IsProgress() then Measure(t.mask, t.wrong) < Measure(mask, wrong)
            else t.mask == mask && t.wrong == wrong
  {
    var t := Step(word, mask, wrong, c);
    StepMask(word, mask, wrong, c);
    StepOutcome(word, mask, wrong, c);
    StepWrongList(word, mask, wrong, c);
    HiddenCountMonotone(mask, t.mask);
  }

  /** A letter already revealed at every one of its positions is classified as wrong, even though it occurs in the word. */
  lemma FullyRevealedLetterIsWrong(word: string, mask: seq<bool>, wrong: seq<char>, c: char)
    requires InPlay(word, mask, wrong)
    requires IsAlpha(c)
    requires forall i :: 0 <= i < |word| && ToLower(word[i]) == ToLower(c) ==> mask[i]
    ensures var t := Step(word, mask, wrong, c);
            !t.outcome.IsCorrect() && t.mask == mask
    ensures ToLower(c) !in wrong ==> Step(word, mask, wrong, c).wrong == wrong + [ToLower(c)]
    ensures ToLower(c) in wrong ==> Step(word, mask, wrong, c).outcome == WrongRepeat
  {
    StepOutcome(word, mask, wrong, c);
    StepWrongList(word, mask, wrong, c);
  }

  /** A letter that occurs nowhere in the word and is not yet on the wrong list uses up one attempt. */
  lemma AbsentLetterUsesAttempt(word: string, mask: seq<bool>, wrong: seq<char>, c: char)
    requires InPlay(word, mask, wrong)
    requires IsAlpha(c)
    requires forall i :: 0 <= i < |word| ==> ToLower(word[i]) != ToLower(c)
    requires ToLower(c) !in wrong
    ensures Step(word, mask, wrong, c)
            == Turn(mask, wrong + [ToLower(c)], if |wrong| + 1 == MaxAttempts then Lost else WrongNew)
  {
    StepOutcome(word, mask, wrong, c);
    StepWrongList(word, mask, wrong, c);
  }

  /**
   The guess loop as a fold of `Step` over the player's input: stops at the
   first Won or Lost turn, or when the input is exhausted.
   */
  function Run(word: string, mask: seq<bool>, wrong: seq<char>, guesses: seq<char>): (r: RunResult)
    requires InPlay(word, mask, wrong)
    ensures Valid(word, r.mask, r.wrong)
    ensures |r.trace| <= |guesses|
    ensures r.status == Playing ==> |r.trace| == |guesses| && InPlay(word, r.mask, r.wrong)
    ensures r.status == Ended(true) ==>
              |r.trace| > 0 && r.trace[|r.trace| - 1] == Won && IsWordGuessed(r.mask)
    ensures r.status == Ended(false) ==>
              |r.trace| > 0 && r.trace[|r.trace| - 1] == Lost && |r.wrong| == MaxAttempts
    ensures forall k :: 0 <= k < |r.trace| - 1 ==> !r.trace[k].IsTerminal()
    // The mask only gains revealed positions and the wrong list only grows at its end.
    ensures forall i :: 0 <= i < |word| && mask[i] ==> r.mask[i]
    ensures |wrong| <= |r.wrong| && r.wrong[..|wrong|] == wrong
    decreases |guesses|
  {
    if |guesses| == 0 then
      RunResult(mask, wrong, Playing, [])
    else
      var t := Step(word, mask, wrong, guesses[0]);
      StepPreservesValid(word, mask, wrong, guesses[0]);
      StepMask(word, mask, wrong, guesses[0]);
      StepOutcome(word, mask, wrong, guesses[0]);
      StepWrongList(word, mask, wrong, guesses[0]);
      if t.outcome == Won then
        RunResult(t.mask, t.wrong, Ended(true), [Won])
      else if t.outcome == Lost then
        RunResult(t.mask, t.wrong, Ended(false), [Lost])
      else
        var rest := Run(word, t.mask, t.wrong, guesses[1..]);
        RunResult(rest.mask, rest.wrong, rest.status, [t.outcome] + rest.trace)
  }

  /** One unfolding of `Run`: the first turn, then either the end of the round or the rest of the input from the new state. */
  lemma RunFirstTurn(word: string, mask: seq<bool>, wrong: seq<char>, guesses: seq<char>)
    requires InPlay(word, mask, wrong)
    requires |guesses| > 0
    ensures var t := Step(word, mask, wrong, guesses[0]);
            var r := Run(word, mask, wrong, guesses);
            && (t.outcome == Won ==> r == RunResult(t.mask, t.wrong, Ended(true), [Won]))
            && (t.outcome == Lost ==> r == RunResult(t.mask, t.wrong, Ended(false), [Lost]))
            && (!t.outcome.IsTerminal() ==>
                  && InPlay(word, t.mask, t.wrong)
                  && var rest := Run(word, t.mask, t.wrong, guesses[1..]);
                     r == RunResult(rest.mask, rest.wrong, rest.status, [t.outcome] + rest.trace))
  {
    StepPreservesValid(word, mask, wrong, guesses[0]);
  }

  /** A non-final turn followed by the rest of the input: the run continues from the turn's state, with the turn's outcome first in the trace. */
  lemma RunContinues(word: string, mask: seq<bool>, wrong: seq<char>, c: char, rest: seq<char>, t: Turn)
    requires InPlay(word, mask, wrong)
    requires Step(word, mask, wrong, c) == t
    requires !t.outcome.IsTerminal()
    ensures InPlay(word, t.mask, t.wrong)
    ensures var r := Run(word, t.mask, t.wrong, rest);
            Run(word, mask, wrong, [c] + rest) == RunResult(r.mask, r.wrong, r.status, [t.outcome] + r.trace)
  {
    RunFirstTurn(word, mask, wrong, [c] + rest);
    assert ([c] + rest)[1..] == rest;
  }

  /** A final turn ends the run whatever input follows it. */
  lemma RunEnds(word: string, mask: seq<bool>, wrong: seq<char>, c: char, rest: seq<char>, t: Turn)
    requires InPlay(word, mask, wrong)
    requires Step(word, mask, wrong, c) == t
    requires t.outcome.IsTerminal()
    ensures Run(word, mask, wrong, [c] + rest) == RunResult(t.mask, t.wrong, Ended(t.outcome == Won), [t.outcome])
  {
    RunFirstTurn(word, mask, wrong, [c] + rest);
  }

  /** However long the input, a round makes at most as many state-changing turns as its measure: hidden positions plus attempts left. */
  lemma {:induction false} RunProgressBounded(word: string, mask: seq<bool>, wrong: seq<char>, guesses: seq<char>)
    requires InPlay(word, mask, wrong)
    ensures var r := Run(word, mask, wrong, guesses);
            ProgressCount(r.trace) + Measure(r.mask, r.wrong) <= Measure(mask, wrong)
    decreases |guesses|
  {
    if |guesses| > 0 {
      var t := Step(word, mask, wrong, guesses[0]);
      StepMeasureDecreases(word, mask, wrong, guesses[0]);
      RunFirstTurn(word, mask, wrong, guesses);
      if !t.outcome.IsTerminal() {
        RunProgressBounded(word, t.mask, t.wrong, guesses[1..]);
        var rest := Run(word, t.mask, t.wrong, guesses[1..]);
        assert ([t.outcome] + rest.trace)[1..] == rest.trace;
      }
    }
  }

  /** The trace of a run of n misses that fills the wrong list: n - 1 new wrong letters, then the loss. */
  function MissTrace(n: nat): (trace: seq<Outcome>)
    requires n > 0
    ensures |trace| == n && trace[n - 1] == Lost
    ensures forall k :: 0 <= k < n - 1 ==> trace[k] == WrongNew
  {
    if n == 1 then [Lost] else [WrongNew] + MissTrace(n - 1)
  }

  /**
   A run in which every guess is a new letter that occurs nowhere in the word,
   with exactly as many guesses as the "Attempts Left" figure shows, reveals
   nothing and ends lost with every guess appended to the wrong list in order.
   */
  lemma {:induction false} AllMissesLose(word: string, mask: seq<bool>, wrong: seq<char>, guesses: seq<char>)
    requires InPlay(word, mask, wrong)
    requires |guesses| == AttemptsLeft(wrong)
    requires forall k :: 0 <= k < |guesses| ==> IsLower(guesses[k])
    requires forall k, i :: 0 <= k < |guesses| && 0 <= i < |word| ==> ToLower(word[i]) != guesses[k]
    requires forall k :: 0 <= k < |guesses| ==> guesses[k] !in wrong
    requires NoDuplicates(guesses)
    ensures Run(word, mask, wrong, guesses) == RunResult(mask, wrong + guesses, Ended(false), MissTrace(|guesses|))
    decreases |guesses|
  {
    var c := guesses[0];
    var rest := guesses[1..];
    assert guesses == [c] + rest;
    AbsentLetterUsesAttempt(word, mask, wrong, c);
    var t := Turn(mask, wrong + [c], if |rest| == 0 then Lost else WrongNew);
    if |rest| == 0 {
      RunEnds(word, mask, wrong, c, rest, t);
    } else {
      RunContinues(word, mask, wrong, c, rest, t);
      var r := Run(word, mask, wrong + [c], rest);
      assert r == RunResult(mask, wrong + guesses, Ended(false), MissTrace(|rest|)) by {
        forall k | 0 <= k < |rest|
          ensures rest[k] !in wrong + [c]
        {
          assert rest[k] == guesses[k + 1];
        }
        AllMissesLose(word, mask, wrong + [c], rest);
        AppendAssociates(wrong, [c], rest);
      }
    }
  }

  /** Sequence concatenation regroups freely. */
  lemma AppendAssociates<T>(a: seq<T>, b: seq<T>, c: seq<T>)
    ensures (a + b) + c == a + (b + c)
  {
  }

  /** The number of turns in a trace that put a new letter on the wrong list. */
  function MissCount(trace: seq<Outcome>): (n: nat)
    ensures n <= ProgressCount(trace)
  {
    if |trace| == 0 then 0
    else (if trace[0].WrongNew? || trace[0].Lost? then 1 else 0) + MissCount(trace[1..])
  }

  /**
   Attempts are used only by new wrong letters: over any run, the wrong list
   grows by exactly the number of turns classified WrongNew or Lost, so
   repeated wrong letters, invalid input and correct guesses cost nothing.
   */
  lemma {:induction false} RunWrongListCountsMisses(word: string, mask: seq<bool>, wrong: seq<char>, guesses: seq<char>)
    requires InPlay(word, mask, wrong)
    ensures var r := Run(word, mask, wrong, guesses);
            |r.wrong| == |wrong| + MissCount(r.trace)
    decreases |guesses|
  {
    if |guesses| > 0 {
      var t := Step(word, mask, wrong, guesses[0]);
      StepWrongList(word, mask, wrong, guesses[0]);
      RunFirstTurn(word, mask, wrong, guesses);
      if !t.outcome.IsTerminal() {
        RunWrongListCountsMisses(word, t.mask, t.wrong, guesses[1..]);
        var rest := Run(word, t.mask, t.wrong, guesses[1..]);
        assert ([t.outcome] + rest.trace)[1..] == rest.trace;
      }
    }
  }

  /** A fresh round on a word of length n ends after at most n + 6 state-changing turns. */
  lemma RoundProgressBounded(word: string, guesses: seq<char>)
    ensures InPlay(word, InitialMask(word), [])
    ensures ProgressCount(Run(word, InitialMask(word), [], guesses).trace) <= |word| + MaxAttempts
  {
    RunProgressBounded(word, InitialMask(word), [], guesses);
  }

  /** A round on the empty word can never be won: no guess reveals anything, so every letter is wrong. */
  lemma EmptyWordNeverWon(guesses: seq<char>)
    ensures Run([], [], [], guesses).status != Ended(true)
  {
    EmptyWordNeverWonFrom([], guesses);
  }

  /** The induction behind `EmptyWordNeverWon`, from any wrong list. */
  lemma {:induction false} EmptyWordNeverWonFrom(wrong: seq<char>, guesses: seq<char>)
    requires InPlay([], [], wrong)
    ensures Run([], [], wrong, guesses).status != Ended(true)
    decreases |guesses|
  {
    if |guesses| > 0 {
      var t := Step([], [], wrong, guesses[0]);
      RunFirstTurn([], [], wrong, guesses);
      if !t.outcome.IsTerminal() {
        EmptyWordNeverWonFrom(t.wrong, guesses[1..]);
      }
    }
  }

  /**
   The loop of `playHangman` over a finite input: starts with every position
   hidden and no wrong letters, and while fewer than six wrong letters are
   recorded takes the next character as a turn, returning at once on a win.
   */
  method PlayHangman(word: string, guesses: seq<char>) returns (status: Status, mask: seq<bool>, wrong: seq<char>)
    ensures var r := Run(word, InitialMask(word), [], guesses);
            status == r.status && mask == r.mask && wrong == r.wrong
    ensures status == Ended(true) ==> IsWordGuessed(mask)
    ensures status == Ended(false) ==> |wrong| == MaxAttempts
    ensures status == Playing ==> |wrong| < MaxAttempts
  {
    mask := InitialMask(word);
    wrong := [];
    status := Playing;
    ghost var final := Run(word, mask, wrong, guesses);
    var k := 0;
    while |wrong| < MaxAttempts && k < |guesses|
      invariant 0 <= k <= |guesses|
      invariant Valid(word, mask, wrong)
      invariant |wrong| < MaxAttempts ==> SameEnd(Run(word, mask, wrong, guesses[k..]), final)
      invariant |wrong| == MaxAttempts ==> final.status == Ended(false) && final.mask == mask && final.wrong == wrong
      decreases |guesses| - k
    {
      var t := Step(word, mask, wrong, guesses[k]);
      RunFirstTurn(word, mask, wrong, guesses[k..]);
      assert guesses[k..][1..] == guesses[k + 1..];
      k := k + 1;
      mask, wrong := t.mask, t.wrong;
      if t.outcome == Won {
        status := Ended(true);
        return;
      }
    }
    if |wrong| == MaxAttempts {
      status := Ended(false);
    } else {
      assert guesses[k..] == [];
    }
  }

  /** The secret word: the entry of a non-empty word list at a position drawn by the caller (the source draws it from `rand()`). */
  function SelectWord(words: seq<string>, draw: nat): (w: string)
    requires |words| > 0
    ensures w in words
  {
    words[draw % |words|]
  }
}
