# Hangman: one round of guess evaluation, in Dafny

This project models the core of a console Hangman game: how one round of the
game evaluates the player's guesses. A round has three pieces of state:

- the secret word;
- a reveal mask with one boolean per letter of the word, all false at the start;
- the ordered list of wrong letters, with a budget of six.

Each turn reads one character. The turn does four things:

1. It lower-cases the character and rejects it if it is not a letter.
2. It scans the word and reveals every hidden position whose lower-cased letter
   matches the guess.
3. It counts the guess as correct only if that scan revealed something new.
4. Otherwise it appends the letter to the wrong list, unless the letter is
   already there.

The round is won when a correct guess completes the mask. It is lost when the
wrong list holds six letters.

The model is functional:

- `Hangman.Step` is one turn. It returns the new mask, the new wrong list and an
  `Outcome`: `Invalid`, `Correct`, `Won`, `WrongNew`, `WrongRepeat` or `Lost`.
- `Round.Run` folds `Step` over a finite sequence of typed characters.
- `Round.PlayHangman` is the source's `while` loop. It is proved to compute the
  same result as `Run`.
- The "Current Word" and "Wrong Guesses" lines are pure string functions,
  each paired with a function that reads the line back. The "Attempts Left"
  figure is a number, `AttemptsLeft`.
- `tolower` and `isalpha` are modelled as in the "C" locale (module `Ascii`).

Files:

- `ascii.dfy`: character classification.
- `hangman.dfy`: the mask, the rendering, the scan and one turn.
- `round.dfy`: state invariants, the round as a fold, the loop method and
  lemmas about whole rounds.
- `scenarios.dfy`: concrete turns on the words "cat" and "book".

## Model

| member | source | states |
|---|---|---|
| Ascii.ToLower | Hangman.cpp:69 | The result is never an upper-case letter. It is alphabetic exactly when the input is, and then it is lower-case. Any character that is not an upper-case letter comes back unchanged. |
| Ascii.ToLowerFollowsAlphabet | Hangman.cpp:69 | Lower-casing maps the k-th letter of the upper-case alphabet to the k-th letter of the lower-case alphabet. Lower-case letters map to themselves. |
| Hangman.IsWordGuessed | Hangman.cpp:30-37 | True exactly when every mask entry is true. The empty mask therefore counts as guessed. |
| Hangman.HiddenCount | Hangman.cpp:30-37 | The number of hidden positions is at most the mask length. It is zero exactly when the word is guessed. |
| Hangman.HiddenCountMonotone | Hangman.cpp:79-85 | A mask that only gains revealed positions never has more hidden positions. If it differs at all, it has strictly fewer. |
| Hangman.InitialMask | Hangman.cpp:47 | The starting mask has one entry per letter of the word, and every position is hidden. |
| Hangman.Spaced | Hangman.cpp:15-21 | Each character is followed by one space: character i sits at position 2i and a space at 2i+1. |
| Hangman.SpacedRoundTrip | Hangman.cpp:15-21 | Reading back every even position of a spaced line recovers the original text. |
| Hangman.DisplayWord | Hangman.cpp:14-23 | The line has length 2·\|word\|+1 and ends in a newline. Position 2i shows the letter if position i is revealed and `_` if not. Position 2i+1 is a space. |
| Hangman.DisplayWordRoundTrip | Hangman.cpp:14-23 | For a word without `_`, the mask and the shown letters can be read back from the rendered line. |
| Hangman.DisplayWrong | Hangman.cpp:59-62 | The wrong-guesses line holds each wrong letter followed by one space: letter i at position 2i, a space at 2i+1. Reading it back gives the wrong letters in the order they were guessed. |
| Hangman.Reveal | Hangman.cpp:78-86 | After the scan, position i is revealed exactly when it was revealed before or its lower-cased letter is the guess. The scan reports correct exactly when some hidden position holds the guess. |
| Hangman.RevealCorrectIffChanged | Hangman.cpp:78-86 | The scan reports correct exactly when it changed the mask. |
| Hangman.Step | Hangman.cpp:65-110 | A turn keeps the mask length. It grows the wrong list by at most one entry. |
| Hangman.StepMask | Hangman.cpp:69-86 | A turn never hides a revealed position, and it reveals a position only if that letter matches the lower-cased guess. Invalid input leaves the mask unchanged. A valid guess reveals every matching position and changes no other. |
| Hangman.StepOutcome | Hangman.cpp:69-110 | Invalid exactly when the lower-cased character is not a letter. Correct or won exactly when a hidden position holds the guess, which is the same as the mask changing. Won exactly when a correct guess leaves no position hidden. Lost exactly when the wrong list reaches six. |
| Hangman.StepWrongList | Hangman.cpp:95-109 | The wrong list changes only on an incorrect guess of a letter not already on it. It then gains exactly that letter, lower-cased, at its end. Every other turn leaves the list as it was. |
| Round.StepPreservesValid | Hangman.cpp:95-109 | A turn taken in play keeps the invariant: the mask fits the word, and the wrong list holds at most six distinct lower-case letters. Unless the turn lost the round, fewer than six remain. |
| Round.StepMeasureDecreases | Hangman.cpp:53-111 | A turn that changes the state strictly lowers hidden positions plus attempts left. Invalid input and a repeated wrong letter leave the state exactly as it was. |
| Round.FullyRevealedLetterIsWrong | Hangman.cpp:78-109 | A letter whose positions are all already revealed is not correct, even though it occurs in the word. It is appended to the wrong list if new there, and reported as a repeat otherwise. |
| Round.AbsentLetterUsesAttempt | Hangman.cpp:95-106 | A letter that occurs nowhere in the word and is not yet wrong is appended to the wrong list. The turn is Lost if that fills the list, and WrongNew otherwise. |
| Round.Run | Hangman.cpp:53-114 | The state stays valid throughout the round. A round still in play has consumed all input. A won round ends on a Won turn with every position revealed. A lost round ends on a Lost turn with six wrong letters. No earlier turn is terminal. The mask only gains positions, and the wrong list only grows at its end. |
| Round.RunProgressBounded | Hangman.cpp:53-111 | In any run, the number of state-changing turns plus the final measure is at most the initial measure. |
| Round.RoundProgressBounded | Hangman.cpp:47-114 | A fresh round on a word of n letters makes at most n + 6 state-changing turns, however long the input is. |
| Round.AllMissesLose | Hangman.cpp:53-114 | The "Attempts Left" figure is the number of misses that end the round: exactly `AttemptsLeft(wrong)` guesses, each a new letter absent from the word, end the round as Lost on the last of them. Nothing is revealed, and the guesses are appended to the wrong list in order. |
| Round.RunWrongListCountsMisses | Hangman.cpp:95-109 | Over any run, the wrong list grows by exactly the number of WrongNew and Lost turns. Repeated wrong letters cost no attempt. |
| Round.EmptyWordNeverWon | Hangman.cpp:53-94 | A round on the empty word is never won, because no guess can reveal a position. |
| Round.PlayHangman | Hangman.cpp:47-114 | The loop yields the same status, mask and wrong list as `Run` on the same input. Won implies the word is guessed, Lost implies six wrong letters, and a round still in play has fewer than six. |
| Round.SelectWord | Hangman.cpp:45 | The selected word is an entry of the word list. |
| Scenarios.BookTurnOAgain | Hangman.cpp:78-106 | On "book" with both o's revealed, guessing o again is WrongNew and puts o on the wrong list. |
| Scenarios.CatTurnT | Hangman.cpp:88-94 | On "cat" with c and a revealed, guessing t is Won. |
| Scenarios.SixMissesLose | Hangman.cpp:53-114 | On "cat", the guesses x y z w q j lose the round with all six on the wrong list. |
| Scenarios.DigitIsInvalid | Hangman.cpp:69-75 | The character '5' is Invalid in any state, and the state does not change. |
| Scenarios.CatMissZAgain | Hangman.cpp:96-109 | Guessing a wrong letter that is already on the list is WrongRepeat, and the state does not change. |
| Scenarios.UpperCaseGuessMatches | Hangman.cpp:69-83 | 'C' reveals the c of "cat". |

Three consequences of the code are worth stating on their own:

- **Wrong letters can occur in the word.** Re-guessing a letter whose
  positions are all revealed reveals nothing, so it is added to the wrong list
  (Hangman.cpp:78-105; `Round.FullyRevealedLetterIsWrong`,
  `Scenarios.BookTurnOAgain`). No lemma claims that wrong letters are absent
  from the word.
- **One character per turn.** Each turn reads a single `char`
  (Hangman.cpp:66-68), so typing "ab" is two turns, a then b; there is no
  rejection of multi-character input. The model takes the input as a sequence
  of characters.
- **Lost depends only on the wrong list.** The loop guard looks only at the
  size of the wrong list (Hangman.cpp:53), and a completed word is checked only
  after a correct guess (Hangman.cpp:88-94). A round on the empty word starts
  fully revealed but can still only end as Lost (`Round.EmptyWordNeverWon`).
  The word list in `main` (Hangman.cpp:119-122) contains no empty word.

## Left out

- Console output: the welcome text, the prompts, and the "Good guess",
  "Incorrect guess", "already guessed", win and game-over messages. The turn's
  `Outcome` says which message is printed. The two status lines are modelled
  as the pure string functions `DisplayWord` and `DisplayWrong`, and the
  attempts-left figure as the number `AttemptsLeft`.
- Console input (`cin >> guess`, which skips whitespace). Guesses are a given
  finite sequence of characters. A round that runs out of input is reported as
  still in play.
- Random word selection with `srand(time(0))` and `rand() % size`. It depends
  on the clock and the C library's generator. `SelectWord` takes the drawn
  number as a parameter, and `PlayHangman` takes the word itself.
- The replay loop and the word-list initialisation in `main`
  (Hangman.cpp:117-137). They are input-driven plumbing around one round.
- Locale-dependent `tolower` and `isalpha`. They are modelled for the "C"
  locale on Dafny `char`s: only the 52 ASCII letters are alphabetic. Negative
  `char` values passed to `tolower` are undefined behaviour in C and are not
  modelled.
- Termination of a whole round. It depends on the input, because invalid input
  and repeated wrong letters can repeat forever. Instead, the model proves that
  every state-changing turn lowers hidden positions plus attempts left
  (`Round.StepMeasureDecreases`, `Round.RoundProgressBounded`).
- Hangman.DisplayWord: requires the mask to have exactly one entry per letter.
  The source's loop would also accept a longer mask, but every caller passes a
  mask built from the word's length.
- Hangman.AttemptsLeft: requires at most six wrong letters. The source computes
  `maxAttempts - wrongGuesses.size()` in unsigned arithmetic. It only does so
  inside the loop, where the list holds fewer than six letters, so the
  wrap-around of that subtraction cannot occur.
- Hangman.Step: requires fewer than six wrong letters. That is the loop guard
  under which the source runs a turn.
