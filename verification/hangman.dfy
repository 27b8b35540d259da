/**
 One turn of a Hangman round. The round's state is the secret word, a reveal
 mask with one entry per letter of the word, and the ordered list of wrong
 letters; a turn takes one character typed by the player and returns the new
 mask, the new wrong list and how the turn was classified.
 */
module Hangman {
  import opened Ascii

  /** Wrong guesses allowed before the round is lost. */
  const MaxAttempts: nat := 6

  /** How a single turn was classified. */
  datatype Outcome =
    | Invalid      // not a letter after lower-casing; nothing changes
    | Correct      // revealed at least one hidden position
    | Won          // revealed at least one hidden position and now every position is revealed
    | WrongNew     // revealed nothing and the letter was added to the wrong list
    | WrongRepeat  // revealed nothing and the letter was already in the wrong list
    | Lost         // as WrongNew, and the wrong list is now full
  {
    predicate IsCorrect() {
      Correct? || Won?
    }

    predicate IsTerminal() {
      Won? || Lost?
    }

    /** The turn changed the state of the round. */
    predicate IsProgress() {
      Correct? || Won? || WrongNew? || Lost?
    }
  }

  /** The state after one turn, with the turn's classification. */
  datatype Turn = Turn(mask: seq<bool>, wrong: seq<char>, outcome: Outcome)

  /** The result of scanning the word for one letter: the new mask and whether anything was newly revealed. */
  datatype Scan = Scan(mask: seq<bool>, correct: bool)

  // ---------------------------------------------------------------------------
  // Reveal mask
  // ---------------------------------------------------------------------------

  /** True iff every position of the word is revealed; an empty mask counts as fully revealed. */
  function IsWordGuessed(mask: seq<bool>): (r: bool)
    ensures r <==> forall i :: 0 <= i < |mask| ==> mask[i]
  {
    if |mask| == 0 then true
    else if !mask[0] then false
    else IsWordGuessed(mask[1..])
  }

  /** The number of positions still hidden. */
  function HiddenCount(mask: seq<bool>): (n: nat)
    ensures n <= |mask|
    ensures n == 0 <==> IsWordGuessed(mask)
  {
    if |mask| == 0 then 0
    else (if mask[0] then 0 else 1) + HiddenCount(mask[1..])
  }

  /** A mask that differs from another only by revealing positions has no more hidden positions, and strictly fewer if it differs at all. */
  lemma {:induction false} HiddenCountMonotone(mask: seq<bool>, mask': seq<bool>)
    requires |mask'| == |mask|
    requires forall i :: 0 <= i < |mask| && mask[i] ==> mask'[i]
    ensures HiddenCount(mask') <= HiddenCount(mask)
    ensures mask' != mask ==> HiddenCount(mask') < HiddenCount(mask)
  {
    if |mask| > 0 {
      HiddenCountMonotone(mask[1..], mask'[1..]);
      assert mask == [mask[0]] + mask[1..];
      assert mask' == [mask'[0]] + mask'[1..];
    }
  }

  /** The mask at the start of a round: every position hidden. */
  function InitialMask(word: string): (mask: seq<bool>)
    ensures |mask| == |word|
    ensures forall i :: 0 <= i < |mask| ==> !mask[i]
    ensures HiddenCount(mask) == |word|
  {
    if |word| == 0 then [] else [false] + InitialMask(word[1..])
  }

  // ---------------------------------------------------------------------------
  // Rendering
  // ---------------------------------------------------------------------------

  /** Each character followed by one space, in order. */
  function Spaced(s: string): (line: string)
    ensures |line| == 2 * |s|
    ensures forall i :: 0 <= i < |s| ==> line[2 * i] == s[i] && line[2 * i + 1] == ' '
  {
    if |s| == 0 then [] else [s[0], ' '] + Spaced(s[1..])
  }

  /** Reads back the characters of a spaced line: every even position. */
  function Unspaced(line: string): (s: string)
    ensures |s| == |line| / 2
  {
    if |line| < 2 then [] else [line[0]] + Unspaced(line[2..])
  }

  /** Spacing a text and reading it back gives the text. */
  lemma {:induction false} SpacedRoundTrip(s: string)
    ensures Unspaced(Spaced(s)) == s
  {
    if |s| > 0 {
      SpacedRoundTrip(s[1..]);
      assert Spaced(s)[2..] == Spaced(s[1..]);
    }
  }

  /** What the player sees at one position: the letter if revealed, an underscore otherwise. */
  function Shown(word: string, mask: seq<bool>): (s: string)
    requires |mask| == |word|
    ensures |s| == |word|
    ensures forall i :: 0 <= i < |word| && mask[i] ==> s[i] == word[i]
    ensures forall i :: 0 <= i < |word| && !mask[i] ==> s[i] == '_'
  {
    seq(|word|, i requires 0 <= i < |word| => if mask[i] then word[i] else '_')
  }

  /** The "Current Word" line: each position as its letter or `_`, each followed by a space, then a newline. */
  function DisplayWord(word: string, mask: seq<bool>): (line: string)
    requires |mask| == |word|
    ensures |line| == 2 * |word| + 1
    ensures line[2 * |word|] == '\n'
    ensures forall i :: 0 <= i < |word| ==> line[2 * i + 1] == ' '
    ensures forall i :: 0 <= i < |word| ==> line[2 * i] == (if mask[i] then word[i] else '_')
  {
    Spaced(Shown(word, mask)) + "\n"
  }

  /** Recovers the mask from a rendered line: a position is revealed unless it shows an underscore. */
  function ReadMask(line: string, n: nat): (mask: seq<bool>)
    requires 2 * n <= |line|
    ensures |mask| == n
  {
    seq(n, i requires 0 <= i < n => line[2 * i] != '_')
  }

  /** For a word with no underscore in it, the rendered line determines the mask and the revealed letters. */
  lemma DisplayWordRoundTrip(word: string, mask: seq<bool>)
    requires |mask| == |word|
    requires '_' !in word
    ensures ReadMask(DisplayWord(word, mask), |word|) == mask
    ensures Unspaced(DisplayWord(word, mask)[..2 * |word|]) == Shown(word, mask)
  {
    var line := DisplayWord(word, mask);
    forall i | 0 <= i < |word|
      ensures ReadMask(line, |word|)[i] == mask[i]
    {
      assert word[i] in word;
    }
    assert line[..2 * |word|] == Spaced(Shown(word, mask));
    SpacedRoundTrip(Shown(word, mask));
  }

  /** The "Wrong Guesses" line: each wrong letter followed by a space, in the order guessed. */
  function DisplayWrong(wrong: seq<char>): (line: string)
    ensures |line| == 2 * |wrong|
    ensures forall i :: 0 <= i < |wrong| ==> line[2 * i] == wrong[i] && line[2 * i + 1] == ' '
    ensures Unspaced(line) == wrong
  {
    SpacedRoundTrip(wrong);
    Spaced(wrong)
  }

  /** The "Attempts Left" figure. */
  function AttemptsLeft(wrong: seq<char>): (n: nat)
    requires |wrong| <= MaxAttempts
    ensures n + |wrong| == MaxAttempts
    ensures n == 0 <==> |wrong| == MaxAttempts
  {
    MaxAttempts - |wrong|
  }

  // ---------------------------------------------------------------------------
  // One turn
  // ---------------------------------------------------------------------------

  /**
   Scans the word left to right for the normalised guess `g`, revealing every
   hidden position whose lower-cased letter is `g`; `correct` records whether
   any position was newly revealed.
   */
  function Reveal(word: string, mask: seq<bool>, g: char): (r: Scan)
    requires |mask| == |word|
    ensures |r.mask| == |word|
    ensures forall i :: 0 <= i < |word| ==> r.mask[i] == (mask[i] || ToLower(word[i]) == g)
    ensures r.correct <==> exists i :: 0 <= i < |word| && !mask[i] && ToLower(word[i]) == g
  {
    if |word| == 0 then Scan([], false)
    else
      var rest := Reveal(word[1..], mask[1..], g);
      var hit := ToLower(word[0]) == g && !mask[0];
      assert rest.correct ==> exists i :: 0 <= i < |word| && !mask[i] && ToLower(word[i]) == g by {
        if rest.correct {
          var j :| 0 <= j < |word| - 1 && !mask[1..][j] && ToLower(word[1..][j]) == g;
          assert !mask[j + 1] && ToLower(word[j + 1]) == g;
        }
      }
      Scan([mask[0] || hit] + rest.mask, hit || rest.correct)
  }

  /** A scan reports a correct guess exactly when it changed the mask. */
  lemma RevealCorrectIffChanged(word: string, mask: seq<bool>, g: char)
    requires |mask| == |word|
    ensures Reveal(word, mask, g).correct <==> Reveal(word, mask, g).mask != mask
  {
    var r := Reveal(word, mask, g);
    if r.mask != mask {
      var i :| 0 <= i < |word| && r.mask[i] != mask[i];
      assert !mask[i] && ToLower(word[i]) == g;
    }
  }

  /**
   One turn of the guess loop, for a round still in play (fewer than
   `MaxAttempts` wrong letters). The character is lower-cased and rejected if
   it is not a letter; otherwise the word is scanned, and the guess is correct
   only if it revealed a hidden position. An incorrect letter is appended to
   the wrong list unless it is already there, and the round is lost once the
   list is full. What a turn does is stated by the three lemmas below.
   */
  function Step(word: string, mask: seq<bool>, wrong: seq<char>, c: char): (t: Turn)
    requires |mask| == |word|
    requires |wrong| < MaxAttempts
    ensures |t.mask| == |word|
    ensures |wrong| <= |t.wrong| <= |wrong| + 1
  {
    var g := ToLower(c);
    if !IsAlpha(g) then
      Turn(mask, wrong, Invalid)
    else
      var scan := Reveal(word, mask, g);
      if scan.correct then
        Turn(scan.mask, wrong, if IsWordGuessed(scan.mask) then Won else Correct)
      else if g in wrong then
        Turn(mask, wrong, WrongRepeat)
      else
        Turn(mask, wrong + [g], if |wrong| + 1 == MaxAttempts then Lost else WrongNew)
  }

  /**
   A turn never hides a revealed position. Invalid input leaves the mask as it
   was; a valid guess reveals every position whose lower-cased letter is the
   lower-cased guess, and changes no other position.
   */
  lemma StepMask(word: string, mask: seq<bool>, wrong: seq<char>, c: char)
    requires |mask| == |word|
    requires |wrong| < MaxAttempts
    ensures var t := Step(word, mask, wrong, c);
            && (forall i :: 0 <= i < |word| && mask[i] ==> t.mask[i])
            && (forall i :: 0 <= i < |word| && !mask[i] && t.mask[i] ==> ToLower(word[i]) == ToLower(c))
            && (!IsAlpha(ToLower(c)) ==> t.mask == mask)
            && (IsAlpha(ToLower(c)) ==>
                  forall i :: 0 <= i < |word| ==> t.mask[i] == (mask[i] || ToLower(word[i]) == ToLower(c)))
  {
  }

  /**
   How a turn is classified: invalid exactly when the lower-cased character is
   not a letter; correct (or won) exactly when some hidden position holds the
   guessed letter, so a letter whose positions are all revealed already is not
   correct; won exactly when a correct guess leaves no position hidden; lost
   exactly when the wrong list becomes full.
   */
  lemma StepOutcome(word: string, mask: seq<bool>, wrong: seq<char>, c: char)
    requires |mask| == |word|
    requires |wrong| < MaxAttempts
    ensures var t := Step(word, mask, wrong, c);
            && (t.outcome == Invalid <==> !IsAlpha(ToLower(c)))
            && (t.outcome.IsCorrect() <==>
                  IsAlpha(ToLower(c)) && exists i :: 0 <= i < |word| && !mask[i] && ToLower(word[i]) == ToLower(c))
            && (t.outcome.IsCorrect() <==> t.mask != mask)
            && (t.outcome == Won <==> t.outcome.IsCorrect() && IsWordGuessed(t.mask))
            && (t.outcome == Lost <==> |t.wrong| == MaxAttempts)
  {
    RevealCorrectIffChanged(word, mask, ToLower(c));
  }

  /**
   The wrong list changes only on an incorrect guess of a letter not already
   on it, and then only by appending that letter, lower-cased. Invalid input,
   a correct guess and a repeated wrong letter leave it as it was.
   */
  lemma StepWrongList(word: string, mask: seq<bool>, wrong: seq<char>, c: char)
    requires |mask| == |word|
    requires |wrong| < MaxAttempts
    ensures var t := Step(word, mask, wrong, c);
            && (t.outcome.WrongNew? || t.outcome.Lost? ==>
                  t.mask == mask && ToLower(c) !in wrong && t.wrong == wrong + [ToLower(c)])
            && (!(t.outcome.WrongNew? || t.outcome.Lost?) ==> t.wrong == wrong)
            && (t.outcome == WrongRepeat ==> t.mask == mask && ToLower(c) in wrong)
            && (t.wrong != wrong <==>
                  IsAlpha(ToLower(c)) && ToLower(c) !in wrong && t.mask == mask)
  {
    RevealCorrectIffChanged(word, mask, ToLower(c));
  }
}
