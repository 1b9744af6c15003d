# Hangman game state in Dafny

This project models the `Hangman` class of `milestone_4.py`, a console word-guessing game. The class holds:

- a list of candidate words;
- the word chosen for the current round;
- a reveal mask (`word_guessed`) that shows `_` for every position not yet guessed;
- a life counter (`num_lives`);
- a counter of distinct letters still to find (`num_letters`);
- the history of accepted guesses (`list_of_guesses`).

The model covers three transitions:

- starting a round (`pick_new_word`, which the constructor also calls);
- evaluating a guess (`check_guess` with `update_word_guessed` and `handle_incorrect_guess`);
- one accept step of `ask_for_input`, which rejects a candidate that is not a single letter or is already in the history, and otherwise records it and evaluates it.

The state is the immutable datatype `Hangman.Game`, and each transition is a pure function on it. `random.choice` becomes an index argument. The console read becomes a candidate-string argument. Printing is dropped.

Files:

- `text.dfy` (module `Text`): the `_` placeholder, ASCII `isalpha` and `lower`, and the distinct characters of a word.
- `hangman.dfy` (module `Hangman`): the state, the transitions, and `Play`, which runs several accept steps in a row.
- `invariants.dfy` (module `HangmanInvariants`): the state invariants and the proofs that the transitions keep them.
- `scenarios.dfy` (module `HangmanScenarios`): whole runs, concrete rounds, and the case quirk.

The case quirk is kept on purpose, not fixed. The history stores the raw candidate, but evaluation uses its lowercase form. So after `p` has been accepted, `P` passes the repeat test and is evaluated a second time. A hit then lowers `num_letters` twice for one letter, and a miss costs a second life. This is why the counter invariant ("`num_letters` is the number of distinct word letters the mask does not show yet") carries a condition: no letter may be evaluated twice after lowercasing. `HangmanScenarios.CaseQuirkBreaksCount` shows, for every letter, how the invariant breaks without that condition, and `HangmanScenarios.CaseQuirkCountsHitTwice` shows it on "apple". The mask-shape invariants need no such condition (`HangmanInvariants.PlayKeepsShape`).

The class itself has no win or loss test and no guard that keeps `num_lives` at zero or above. `HangmanInvariants.CountZeroIffRevealed` is a fact derived from the invariants. It is not a check the class performs.

Three behaviours of `milestone_4.py` that a reader might not expect are kept as written:

- The history stores the raw guess, not the lowercased one (milestone_4.py:104).
- Rejecting a candidate raises no error. The accept step prints a message and leaves the state unchanged (milestone_4.py:99-102).
- Lives can go below zero, because `handle_incorrect_guess` decrements without a guard (milestone_4.py:73).

## Model

| member | source | states |
|---|---|---|
| Text.Lower | milestone_4.py:84 | lowercasing gives a lowercase ASCII letter exactly for letters, never an upper-case letter, and leaves lowercase letters and non-letters unchanged |
| Text.LowerIdentifiesCases | milestone_4.py:84 | the upper and lower case of a letter are different characters that lowercase to the same one |
| Text.IsAlpha | milestone_4.py:99 | a character counts as alphabetic only if it is one of the 52 ASCII letters (in `A`..`z` but not among the six characters between `Z` and `a`), so the `_` placeholder never does |
| Text.IsAlphaStr | milestone_4.py:99 | `isalpha()` on a string, restricted to ASCII: false for the empty string, never true of a string containing `_`, and together with length 1 true exactly for one-letter strings |
| Text.LowerStr | milestone_4.py:84 | `lower()` on a string, restricted to ASCII: same length, each character lowercased on its own |
| Text.LettersBound | milestone_4.py:34 | a word has no more distinct characters than positions, and at least one when it is non-empty |
| Hangman.PickNewWord | milestone_4.py:28-35 | a new round on the chosen word has an all-placeholder mask of the word's length, a count equal to the number of distinct characters (between 0 and the length), and an empty history; the word list and lives are unchanged |
| Hangman.New | milestone_4.py:16-26 | the constructor keeps the given list and lives and starts a round on the chosen word |
| Hangman.NewWithDefaultLives | milestone_4.py:16 | without a lives argument the game starts with 5 lives |
| Hangman.Reveal | milestone_4.py:50-52 | the reveal loop keeps the mask length, writes the guess at every position where the word has it, and leaves every other position unchanged |
| Hangman.UpdateWordGuessed | milestone_4.py:43-54 | reveals every occurrence and lowers `num_letters` by exactly one, however many occurrences there are; lives, word and history are unchanged |
| Hangman.HandleIncorrectGuess | milestone_4.py:66-73 | a miss takes exactly one life and changes nothing else |
| Hangman.CheckGuess | milestone_4.py:77-89 | if the lowercased guess is in the word, its positions are revealed, the count drops by one and lives are kept; otherwise one life is lost and the mask and count stay the same; the history is never touched |
| Hangman.AskForInput | milestone_4.py:99-105 | a candidate that is not one letter, or is already in the history, is rejected and the state is unchanged; any other candidate is appended raw to the history (one entry longer) and then evaluated |
| Hangman.Play | milestone_4.py:99-105 | successive passes of the loop body, one per candidate, as across repeated calls of `ask_for_input`: over such a run the word is kept, lives drop by at most one per step and never rise, and the history only grows, by at most one entry per step |
| HangmanInvariants.PickNewWordEstablishes | milestone_4.py:32-35 | a new round satisfies the mask-shape and no-partial-reveal invariants and both directions of "shown iff evaluated" (trivially, as nothing is evaluated yet), and also the counter invariant when the word contains no `_` |
| HangmanInvariants.CheckGuessKeepsShape | milestone_4.py:50-52 | every mask position stays `_` or the word's letter there, a revealed position never changes or reverts, and letters stay revealed all-or-nothing |
| HangmanInvariants.RevealRemovesOneLetter | milestone_4.py:50-54 | revealing a hidden letter removes exactly that letter from the set of hidden distinct letters |
| HangmanInvariants.CheckGuessKeepsCount | milestone_4.py:84-89 | if the lowercased guess is not already shown, evaluating it keeps `num_letters` equal to the number of hidden distinct letters |
| HangmanInvariants.AskForInputEvaluated | milestone_4.py:101-105 | the set of lowercased history entries grows by the lowercased candidate exactly when the candidate is accepted |
| HangmanInvariants.AskForInputKeepsConsistent | milestone_4.py:99-105 | an accept step keeps every invariant when the letter it would evaluate has not been evaluated before after lowercasing |
| HangmanInvariants.PlayKeepsConsistent | milestone_4.py:99-105 | over a run in which every candidate that gets past both rejections evaluates a letter not evaluated before after lowercasing, every invariant holds at the end; rejected candidates such as a repeated `p` impose nothing |
| HangmanInvariants.AskForInputKeepsShape | milestone_4.py:99-105 | with no freshness condition, even when the case quirk evaluates a letter twice, an accept step keeps every mask position `_` or the word's letter, keeps letters revealed all-or-nothing, and never changes a revealed position |
| HangmanInvariants.PlayKeepsShape | milestone_4.py:99-105 | the same shape invariants hold at the end of any run of accept steps, and a position revealed at the start keeps its letter |
| HangmanInvariants.AskForInputKeepsGuessedRevealed | milestone_4.py:99-105 | with no freshness condition, an accept step keeps every position whose letter has been evaluated (lowercased) shown |
| HangmanInvariants.PlayKeepsGuessedRevealed | milestone_4.py:50-52 | over any run of accept steps, every position whose letter has been evaluated is shown at the end |
| HangmanInvariants.AllGuessedWins | milestone_4.py:54 | under the counter invariant, once every letter of the word has been evaluated the count is 0 and the mask spells the whole word with no `_` |
| HangmanInvariants.CountZeroIffRevealed | milestone_4.py:54 | under the counter invariant, `num_letters` is 0 exactly when the mask has no placeholder, and then the mask spells the word |
| HangmanScenarios.MissesCostOneLifeEach | milestone_4.py:73 | a run of accepted misses costs exactly one life each, reveals nothing, and appends each candidate to the history |
| HangmanScenarios.ApplePickStartsRound | milestone_4.py:32-35 | a round on "apple" starts with mask `_____`, count 4 and 5 lives |
| HangmanScenarios.AppleHitAndMiss | milestone_4.py:84-89 | on "apple", `p` reveals `_pp__` and brings the count to 3 with lives kept, while `z` costs one life and reveals nothing |
| HangmanScenarios.AppleRepeatRejected | milestone_4.py:101-102 | submitting `p` again is rejected and changes nothing |
| HangmanScenarios.GoIsWon | milestone_4.py:50-54 | on "go", guessing `g` then `o` brings the count from 2 to 0 and the mask to `go` |
| HangmanScenarios.CaseQuirkCountsHitTwice | milestone_4.py:101-105 | `P` after `p` on "apple" is accepted and evaluated again: the count becomes 2 while a, l and e are still hidden, so the counter invariant fails |
| HangmanScenarios.CaseQuirkBreaksCount | milestone_4.py:101-105 | for every lowercase letter of the word not evaluated before, accepting it and then its upper-case form evaluates it twice: the count drops by two, the mask stays as after the first guess, and the counter invariant fails |
| HangmanScenarios.AppleRepeatEvaluatesOnce | milestone_4.py:101-102 | the run `p`, `p` on a fresh "apple" round evaluates no letter twice, because the repeat is rejected |
| HangmanScenarios.CaseQuirkCountsMissTwice | milestone_4.py:104-105 | `z` then `Z` on "apple" are both evaluated and cost two lives |

## Left out

- Printing is not modelled: `display_word_guessed` and every `print` call only write to the console. Because of this, `handle_correct_guess` is the same as `update_word_guessed` and has no member of its own.
- The `input()` read and the `while True` retry loop of `ask_for_input` are not modelled. `Hangman.AskForInput` is one pass of the loop body on a given candidate, and its verdict says whether the real loop would prompt again or stop.
- `random.choice` is not modelled. It is replaced by an index argument, and an empty word list, on which `random.choice` raises, is excluded by the `choice < |wordList|` precondition.
- Python's Unicode `str.isalpha` and `str.lower` are not modelled. The model uses ASCII letters and ASCII lowercasing only. A non-ASCII letter, which Python would accept, is rejected by the model.
- Hangman.CheckGuess: takes one character. The source's `check_guess` accepts any string and tests it with substring `in`. That is the same test for the one-letter strings the accept step passes in, but not for other strings.
- Counters are unbounded integers. Python integers are unbounded too, so no wrap-around is lost.
