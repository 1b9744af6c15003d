/** Whole runs of the game: how lives are spent over several accept steps,
    concrete rounds on small words, and the case quirk of the accept step. */
module HangmanScenarios {
  import opened Text
  import opened Hangman
  import opened HangmanInvariants

  /** Every candidate is a letter the word lacks (after lowering), none is in
      the history yet, and no two are the same string. */
  predicate AllFreshMisses(g: Game, candidates: seq<string>) {
    && (forall i :: 0 <= i < |candidates| ==>
          SingleLetter(candidates[i]) && Lower(candidates[i][0]) !in g.word
          && candidates[i] !in g.listOfGuesses)
    && (forall i, j :: 0 <= i < j < |candidates| ==> candidates[i] != candidates[j])
  }

  /** A run of accepted misses costs exactly one life each and reveals
      nothing; so `n` such misses from `n` lives leave none. */
  lemma {:induction false} MissesCostOneLifeEach(g: Game, candidates: seq<string>)
    requires |g.wordGuessed| == |g.word|
    requires AllFreshMisses(g, candidates)
    ensures var r := Play(g, candidates);
      && r.numLives == g.numLives - |candidates|
      && r.wordGuessed == g.wordGuessed
      && r.numLetters == g.numLetters
      && r.listOfGuesses == g.listOfGuesses + candidates
    decreases |candidates|
  {
    if |candidates| > 0 {
      var s := AskForInput(g, candidates[0]);
      assert s.verdict == Accepted;
      var rest := candidates[1..];
      assert AllFreshMisses(s.game, rest) by {
        forall i | 0 <= i < |rest| ensures rest[i] !in s.game.listOfGuesses {
          assert rest[i] == candidates[i + 1];
          assert candidates[0] != candidates[i + 1];
        }
      }
      MissesCostOneLifeEach(s.game, rest);
      assert g.listOfGuesses + [candidates[0]] + rest == g.listOfGuesses + candidates;
    }
  }

  lemma ApplePickStartsRound()
    ensures var g := New(["apple"], 5, 0);
      g.wordGuessed == "_____" && g.numLetters == 4 && g.numLives == 5
  {
    assert Letters("apple") == {'a', 'p', 'l', 'e'} by {
      assert "apple"[0] == 'a' && "apple"[1] == 'p' && "apple"[3] == 'l' && "apple"[4] == 'e';
    }
  }

  /** Guessing `p` in "apple" reveals both p's, counts one letter fewer and
      keeps the lives; guessing `z` instead costs one life and reveals nothing. */
  lemma AppleHitAndMiss()
    ensures var g := New(["apple"], 5, 0);
      var hit := AskForInput(g, "p");
      var miss := AskForInput(g, "z");
      && hit.verdict == Accepted
      && hit.game.wordGuessed == "_pp__" && hit.game.numLetters == 3 && hit.game.numLives == 5
      && miss.verdict == Accepted
      && miss.game.wordGuessed == "_____" && miss.game.numLives == 4
  {
    ApplePickStartsRound();
  }

  /** Submitting `p` a second time is rejected and changes nothing. */
  lemma AppleRepeatRejected()
    ensures var g := AskForInput(New(["apple"], 5, 0), "p").game;
      AskForInput(g, "p") == Step(g, AlreadyTried)
  {
  }

  /** On "go", guessing `g` then `o` brings the count to zero. */
  lemma GoIsWon()
    ensures New(["go"], 5, 0).numLetters == 2
    ensures Play(New(["go"], 5, 0), ["g", "o"]).numLetters == 0
    ensures Play(New(["go"], 5, 0), ["g", "o"]).wordGuessed == "go"
  {
    assert Letters("go") == {'g', 'o'} by {
      assert "go"[0] == 'g' && "go"[1] == 'o';
    }
  }

  /** The state after `p` on a fresh "apple" round with five lives. */
  function AppleAfterP(): Game {
    Game(["apple"], 5, "apple", "_pp__", 3, ["p"])
  }

  lemma AppleAfterPReached()
    ensures AskForInput(New(["apple"], 5, 0), "p").game == AppleAfterP()
  {
    AppleHitAndMiss();
  }

  /** The history keeps the raw candidate but evaluation lowers it, so `P`
      after `p` passes the repeat test and is evaluated again: on "apple" the
      count drops to 2 while a, l and e are still hidden, which breaks the
      counter invariant. */
  lemma CaseQuirkCountsHitTwice()
    ensures var s2 := AskForInput(AskForInput(New(["apple"], 5, 0), "p").game, "P");
      && s2.verdict == Accepted
      && s2.game.numLetters == 2
      && Unrevealed(s2.game) == {'a', 'l', 'e'}
      && !CountInv(s2.game)
  {
    AppleAfterPReached();
    var s2 := AskForInput(AppleAfterP(), "P");
    assert s2.game == Game(["apple"], 5, "apple", "_pp__", 2, ["p", "P"]);
    AppleUnrevealed(s2.game);
  }

  /** With "_pp__" showing on "apple", exactly a, l and e are hidden. */
  lemma AppleUnrevealed(g: Game)
    requires g.word == "apple" && g.wordGuessed == "_pp__"
    ensures Unrevealed(g) == {'a', 'l', 'e'}
  {
    assert g.word == ['a', 'p', 'p', 'l', 'e'];
    assert g.wordGuessed == ['_', 'p', 'p', '_', '_'];
    forall x | x in Unrevealed(g) ensures x in {'a', 'l', 'e'} {
      assert x in g.word && x != 'p';
    }
    forall x | x in {'a', 'l', 'e'} ensures x in Unrevealed(g) {
      assert x in g.word && x !in g.wordGuessed;
    }
  }

  /** The same quirk for a miss: `z` then `Z` are both evaluated and cost two
      lives. */
  lemma CaseQuirkCountsMissTwice()
    ensures Play(New(["apple"], 5, 0), ["z", "Z"]).numLives == 3
  {
  }

  /** The case quirk for every letter: on a consistent state, accepting a
      lowercase letter of the word that was not evaluated before and then its
      upper-case form evaluates the letter twice. The count drops by two,
      the mask is the same as after the first guess, and the counter
      invariant no longer holds. */
  lemma CaseQuirkBreaksCount(g: Game, c: char)
    requires Consistent(g)
    requires 'a' <= c <= 'z' && c in g.word && [c] !in Evaluated(g)
    ensures var u := (c as int - ('a' as int - 'A' as int)) as char;
      var g1 := AskForInput(g, [c]).game;
      var s2 := AskForInput(g1, [u]);
      && s2.verdict == Accepted
      && s2.game.numLetters == g.numLetters - 2
      && s2.game.wordGuessed == g1.wordGuessed
      && !CountInv(s2.game)
  {
    var u := (c as int - ('a' as int - 'A' as int)) as char;
    LowerIdentifiesCases(c);
    LowerStrSingle([c]);
    LowerStrSingle([u]);
    assert EvaluatesFreshLetter(g, [c]);
    AskForInputKeepsConsistent(g, [c]);
    var g1 := AskForInput(g, [c]).game;
    assert [u] !in g1.listOfGuesses by {
      assert [u] != [c];
      forall k | 0 <= k < |g.listOfGuesses| ensures g.listOfGuesses[k] != [u] {
        assert LowerStr(g.listOfGuesses[k]) in Evaluated(g);
      }
    }
    var s2 := AskForInput(g1, [u]);
    assert s2.game.wordGuessed == g1.wordGuessed;
    assert Unrevealed(s2.game) == Unrevealed(g1);
  }

  /** A repeated `p` is rejected, not evaluated, so the run `p`, `p` on a fresh
      "apple" round evaluates no letter twice. */
  lemma AppleRepeatEvaluatesOnce()
    ensures NoDoubleEval(New(["apple"], 5, 0), ["p", "p"])
  {
    AppleAfterPReached();
    assert Evaluated(New(["apple"], 5, 0)) == {};
  }
}
