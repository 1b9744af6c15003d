/** Invariants of the game state and the proofs that the transitions keep
    them. None of these is checked by the class itself; they are facts about
    the states the transitions reach under the conditions each lemma states.
    The counter invariant in particular fails for a word containing `_` and
    after a letter is evaluated twice in different cases. */
module HangmanInvariants {
  import opened Text
  import opened Hangman

  /** The mask has the word's length and each position is either still the
      placeholder or the word's own letter there. */
  predicate MaskShape(g: Game) {
    && |g.wordGuessed| == |g.word|
    && forall i :: 0 <= i < |g.wordGuessed| ==>
         g.wordGuessed[i] == Placeholder || g.wordGuessed[i] == g.word[i]
  }

  /** A letter is revealed at all of its positions or at none of them. */
  predicate NoPartialReveal(g: Game)
    requires |g.wordGuessed| == |g.word|
  {
    forall i, j :: 0 <= i < |g.word| && 0 <= j < |g.word| && g.word[i] == g.word[j] ==>
      (g.wordGuessed[i] == Placeholder <==> g.wordGuessed[j] == Placeholder)
  }

  /** Distinct characters of the word that the mask does not show yet. */
  function Unrevealed(g: Game): set<char> {
    set c | c in g.word && c !in g.wordGuessed
  }

  /** The counter invariant: with no placeholder inside the word itself,
      `numLetters` counts the distinct letters still hidden. */
  predicate CountInv(g: Game) {
    && Placeholder !in g.word
    && MaskShape(g)
    && NoPartialReveal(g)
    && g.numLetters == |Unrevealed(g)|
  }

  /** The lowered forms of every entry of the history. */
  function Evaluated(g: Game): set<string> {
    set k | 0 <= k < |g.listOfGuesses| :: LowerStr(g.listOfGuesses[k])
  }

  /** Every letter the mask shows was the lowered form of some accepted guess. */
  predicate RevealedWereGuessed(g: Game)
    requires |g.wordGuessed| == |g.word|
  {
    forall i :: 0 <= i < |g.wordGuessed| && g.wordGuessed[i] != Placeholder ==>
      [g.wordGuessed[i]] in Evaluated(g)
  }

  /** The converse of `RevealedWereGuessed`: a position whose letter has been
      evaluated (as a lowered guess) is shown. */
  predicate GuessedAreRevealed(g: Game)
    requires |g.wordGuessed| == |g.word|
  {
    forall i :: 0 <= i < |g.word| && [g.word[i]] in Evaluated(g) ==>
      g.wordGuessed[i] == g.word[i]
  }

  /** Every letter of the word has been evaluated as a lowered guess. */
  predicate AllLettersGuessed(g: Game) {
    forall i :: 0 <= i < |g.word| ==> [g.word[i]] in Evaluated(g)
  }

  /** Everything the accept step keeps, given fresh letters. */
  predicate Consistent(g: Game) {
    CountInv(g) && RevealedWereGuessed(g)
  }

  /** The candidate, if it gets past both rejections, is a letter whose lowered
      form has not been evaluated before: the "no letter evaluated twice after
      lowering" condition for one step. */
  predicate EvaluatesFreshLetter(g: Game, candidate: string) {
    SingleLetter(candidate) && candidate !in g.listOfGuesses ==>
      LowerStr(candidate) !in Evaluated(g)
  }

  // ---------------------------------------------------------------- round start

  /** A new round satisfies the shape invariants, and the counter invariant
      whenever the chosen word holds no placeholder character. */
  lemma PickNewWordEstablishes(g: Game, choice: nat)
    requires choice < |g.wordList|
    ensures var r := PickNewWord(g, choice);
      && MaskShape(r)
      && NoPartialReveal(r)
      && RevealedWereGuessed(r)
      && GuessedAreRevealed(r)
      && (Placeholder !in r.word ==> CountInv(r) && Consistent(r))
  {
    var r := PickNewWord(g, choice);
    if Placeholder !in r.word {
      assert Unrevealed(r) == Letters(r.word) by {
        assert forall c :: c in r.wordGuessed ==> c == Placeholder;
      }
    }
  }

  // ---------------------------------------------------------------- one guess

  /** Evaluating a guess keeps the mask's shape, never hides or changes a
      revealed position, and keeps letters revealed all-or-nothing. */
  lemma CheckGuessKeepsShape(g: Game, guess: char)
    requires MaskShape(g)
    ensures var r := CheckGuess(g, guess);
      && MaskShape(r)
      && (forall i :: 0 <= i < |g.wordGuessed| && g.wordGuessed[i] != Placeholder ==>
            r.wordGuessed[i] == g.wordGuessed[i])
      && (NoPartialReveal(g) ==> NoPartialReveal(r))
  {
  }

  /** The hidden-letter set loses exactly the revealed letter `c`. */
  lemma RevealRemovesOneLetter(g: Game, c: char)
    requires CountInv(g)
    requires c in g.word && c !in g.wordGuessed
    ensures Unrevealed(UpdateWordGuessed(g, c)) == Unrevealed(g) - {c}
    ensures c in Unrevealed(g)
  {
    var r := UpdateWordGuessed(g, c);
    var j :| 0 <= j < |g.word| && g.word[j] == c;
    assert r.wordGuessed[j] == c;
    // Revealed positions keep their letter, since `c` was shown nowhere.
    assert forall k :: 0 <= k < |g.wordGuessed| && g.wordGuessed[k] != Placeholder ==>
      r.wordGuessed[k] == g.wordGuessed[k];
    forall x | x in Unrevealed(r) ensures x in Unrevealed(g) - {c} {
      forall k | 0 <= k < |g.wordGuessed| ensures g.wordGuessed[k] != x {
        assert r.wordGuessed[k] != x;
      }
    }
    forall x | x in Unrevealed(g) - {c} ensures x in Unrevealed(r) {
      forall k | 0 <= k < |r.wordGuessed| ensures r.wordGuessed[k] != x {
        assert g.wordGuessed[k] != x;
      }
    }
  }

  /** A guess whose lowered letter is not already shown keeps the counter
      invariant: a hit removes exactly one hidden letter and takes exactly
      one off the count; a miss changes neither. */
  lemma CheckGuessKeepsCount(g: Game, guess: char)
    requires CountInv(g)
    requires Lower(guess) !in g.wordGuessed
    ensures CountInv(CheckGuess(g, guess))
  {
    CheckGuessKeepsShape(g, guess);
    var c := Lower(guess);
    if c in g.word {
      RevealRemovesOneLetter(g, c);
    }
  }

  // ---------------------------------------------------------------- accept step

  /** The accept step adds the lowered candidate to the evaluated set exactly
      when it accepts it. */
  lemma AskForInputEvaluated(g: Game, candidate: string)
    requires |g.wordGuessed| == |g.word|
    ensures var r := AskForInput(g, candidate);
      Evaluated(r.game) == if r.verdict == Accepted then Evaluated(g) + {LowerStr(candidate)}
                           else Evaluated(g)
  {
    var r := AskForInput(g, candidate);
    if r.verdict == Accepted {
      var h := g.listOfGuesses + [candidate];
      assert r.game.listOfGuesses == h;
      forall s | s in Evaluated(r.game) ensures s in Evaluated(g) + {LowerStr(candidate)} {
        var k :| 0 <= k < |h| && s == LowerStr(h[k]);
        if k < |g.listOfGuesses| {
          assert h[k] == g.listOfGuesses[k];
        }
      }
      forall s | s in Evaluated(g) + {LowerStr(candidate)} ensures s in Evaluated(r.game) {
        if s == LowerStr(candidate) {
          assert h[|g.listOfGuesses|] == candidate;
        } else {
          var k :| 0 <= k < |g.listOfGuesses| && s == LowerStr(g.listOfGuesses[k]);
          assert h[k] == g.listOfGuesses[k];
        }
      }
    }
  }

  /** One accept step keeps every invariant, provided the letter it would
      evaluate (after lowering) has not been evaluated before. */
  lemma AskForInputKeepsConsistent(g: Game, candidate: string)
    requires Consistent(g)
    requires EvaluatesFreshLetter(g, candidate)
    ensures Consistent(AskForInput(g, candidate).game)
  {
    var r := AskForInput(g, candidate);
    AskForInputEvaluated(g, candidate);
    if r.verdict == Accepted {
      var c := Lower(candidate[0]);
      LowerStrSingle(candidate);
      var recorded := g.(listOfGuesses := g.listOfGuesses + [candidate]);
      assert c !in g.wordGuessed by {
        forall i | 0 <= i < |g.wordGuessed| ensures g.wordGuessed[i] != c {
          if g.wordGuessed[i] != Placeholder {
            assert [g.wordGuessed[i]] in Evaluated(g);
          }
        }
      }
      assert CountInv(recorded) by {
        assert Unrevealed(recorded) == Unrevealed(g);
      }
      CheckGuessKeepsCount(recorded, candidate[0]);
      CheckGuessKeepsShape(recorded, candidate[0]);
    }
  }

  /** Along the run, every candidate that gets past both rejections evaluates
      a letter not evaluated before after lowering. Rejected candidates, such
      as a second `p`, impose nothing. */
  predicate NoDoubleEval(g: Game, candidates: seq<string>)
    requires |g.wordGuessed| == |g.word|
    decreases |candidates|
  {
    || |candidates| == 0
    || (&& EvaluatesFreshLetter(g, candidates[0])
        && NoDoubleEval(AskForInput(g, candidates[0]).game, candidates[1..]))
  }

  /** Over a whole run of accept steps in which no letter is evaluated twice
      after lowering, every invariant holds at the end. */
  lemma {:induction false} PlayKeepsConsistent(g: Game, candidates: seq<string>)
    requires Consistent(g)
    requires NoDoubleEval(g, candidates)
    ensures Consistent(Play(g, candidates))
    decreases |candidates|
  {
    if |candidates| > 0 {
      AskForInputKeepsConsistent(g, candidates[0]);
      PlayKeepsConsistent(AskForInput(g, candidates[0]).game, candidates[1..]);
    }
  }

  /** The shape invariants need no freshness condition: every accept step,
      including one that evaluates a letter a second time, keeps each mask
      position `_` or the word's letter, keeps letters revealed all-or-nothing,
      and never changes a revealed position. */
  lemma AskForInputKeepsShape(g: Game, candidate: string)
    requires MaskShape(g) && NoPartialReveal(g)
    ensures var r := AskForInput(g, candidate).game;
      && MaskShape(r)
      && NoPartialReveal(r)
      && (forall i :: 0 <= i < |g.wordGuessed| && g.wordGuessed[i] != Placeholder ==>
            r.wordGuessed[i] == g.wordGuessed[i])
  {
    if AskForInput(g, candidate).verdict == Accepted {
      CheckGuessKeepsShape(g.(listOfGuesses := g.listOfGuesses + [candidate]), candidate[0]);
    }
  }

  /** The shape invariants hold at the end of any run of accept steps, and a
      position revealed at the start is still revealed with the same letter. */
  lemma {:induction false} PlayKeepsShape(g: Game, candidates: seq<string>)
    requires MaskShape(g) && NoPartialReveal(g)
    ensures var r := Play(g, candidates);
      && MaskShape(r)
      && NoPartialReveal(r)
      && (forall i :: 0 <= i < |g.wordGuessed| && g.wordGuessed[i] != Placeholder ==>
            r.wordGuessed[i] == g.wordGuessed[i])
    decreases |candidates|
  {
    if |candidates| > 0 {
      AskForInputKeepsShape(g, candidates[0]);
      PlayKeepsShape(AskForInput(g, candidates[0]).game, candidates[1..]);
    }
  }

  /** Every accept step keeps evaluated letters shown, with no freshness
      condition: the case quirk re-evaluates a letter but cannot hide one. */
  lemma AskForInputKeepsGuessedRevealed(g: Game, candidate: string)
    requires MaskShape(g) && GuessedAreRevealed(g)
    ensures var r := AskForInput(g, candidate).game;
      MaskShape(r) && GuessedAreRevealed(r)
  {
    var r := AskForInput(g, candidate);
    AskForInputEvaluated(g, candidate);
    if r.verdict == Accepted {
      LowerStrSingle(candidate);
      CheckGuessKeepsShape(g.(listOfGuesses := g.listOfGuesses + [candidate]), candidate[0]);
    }
  }

  /** Over any run of accept steps, every position whose letter has been
      evaluated is shown at the end. */
  lemma {:induction false} PlayKeepsGuessedRevealed(g: Game, candidates: seq<string>)
    requires MaskShape(g) && GuessedAreRevealed(g)
    ensures var r := Play(g, candidates);
      MaskShape(r) && GuessedAreRevealed(r)
    decreases |candidates|
  {
    if |candidates| > 0 {
      AskForInputKeepsGuessedRevealed(g, candidates[0]);
      PlayKeepsGuessedRevealed(AskForInput(g, candidates[0]).game, candidates[1..]);
    }
  }

  // ---------------------------------------------------------------- winning

  /** Under the counter invariant the count reaches zero exactly when the
      mask shows no placeholder, which is the whole word. */
  lemma CountZeroIffRevealed(g: Game)
    requires CountInv(g)
    ensures g.numLetters == 0 <==> Placeholder !in g.wordGuessed
    ensures g.numLetters == 0 ==> g.wordGuessed == g.word
  {
    if g.numLetters == 0 {
      assert Unrevealed(g) == {};
      forall i | 0 <= i < |g.wordGuessed| ensures g.wordGuessed[i] != Placeholder {
        var x := g.word[i];
        assert x !in Unrevealed(g);
        var k :| 0 <= k < |g.wordGuessed| && g.wordGuessed[k] == x;
        assert g.word[k] == x;
      }
      assert g.wordGuessed == g.word;
    }
    if Placeholder !in g.wordGuessed {
      assert g.wordGuessed == g.word;
      forall x | x in g.word ensures x !in Unrevealed(g) {
      }
      assert Unrevealed(g) == {};
    }
  }

  /** The win property: once every letter of the word has been evaluated,
      the count is zero and the mask spells the whole word. */
  lemma AllGuessedWins(g: Game)
    requires CountInv(g) && GuessedAreRevealed(g)
    requires AllLettersGuessed(g)
    ensures g.numLetters == 0
    ensures Placeholder !in g.wordGuessed && g.wordGuessed == g.word
  {
    assert g.wordGuessed == g.word;
    CountZeroIffRevealed(g);
  }
}
