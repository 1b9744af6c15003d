/** The `Hangman` class: one game state and the transitions on it.
    Every transition is a pure function from the old state to the new one;
    console output is not modelled, `random.choice` is an index argument and
    the console read is a candidate-string argument. */
module Hangman {
  import opened Text

  /** The instance attributes of the class, under their own names.
      `wordGuessed` is the reveal mask and `listOfGuesses` the raw history
      of accepted candidates. Both counters are unbounded integers: the
      class keeps no guard on either of them. */
  datatype Game = Game(
    wordList: seq<string>,
    numLives: int,
    word: string,
    wordGuessed: seq<char>,
    numLetters: int,
    listOfGuesses: seq<string>)

  /** The starting number of lives when the caller gives none. */
  const DefaultLives: int := 5

  /** The state right after a round starts on `w`: an all-placeholder mask of
      the word's length, the word's distinct-character count, no guesses. */
  predicate FreshRound(g: Game, w: string) {
    && g.word == w
    && |g.wordGuessed| == |w|
    && (forall i :: 0 <= i < |g.wordGuessed| ==> g.wordGuessed[i] == Placeholder)
    && g.numLetters == |Letters(w)|
    && g.listOfGuesses == []
  }

  /** `pick_new_word`: `choice` stands for the index `random.choice` draws. */
  function PickNewWord(g: Game, choice: nat): (r: Game)
    requires choice < |g.wordList|
    ensures FreshRound(r, g.wordList[choice])
    ensures 0 <= r.numLetters <= |r.word|
    ensures r.wordList == g.wordList && r.numLives == g.numLives
  {
    var w := g.wordList[choice];
    LettersBound(w);
    Game(g.wordList, g.numLives, w, seq(|w|, _ => Placeholder), |Letters(w)|, [])
  }

  /** The constructor: store the list and the lives, then start a round. */
  function New(wordList: seq<string>, numLives: int, choice: nat): (r: Game)
    requires choice < |wordList|
    ensures r.wordList == wordList && r.numLives == numLives
    ensures FreshRound(r, wordList[choice])
  {
    PickNewWord(Game(wordList, numLives, "", [], 0, []), choice)
  }

  /** The constructor with its default of five lives. */
  function NewWithDefaultLives(wordList: seq<string>, choice: nat): (r: Game)
    requires choice < |wordList|
    ensures r.numLives == 5
    ensures r.wordList == wordList && FreshRound(r, wordList[choice])
  {
    New(wordList, DefaultLives, choice)
  }

  /** The `enumerate` loop of `update_word_guessed`: walk the word and the
      mask together, writing `c` wherever the word has `c`. */
  function Reveal(word: string, mask: seq<char>, c: char): (r: seq<char>)
    requires |mask| == |word|
    ensures |r| == |word|
    ensures forall i :: 0 <= i < |word| && word[i] == c ==> r[i] == c
    ensures forall i :: 0 <= i < |word| && word[i] != c ==> r[i] == mask[i]
  {
    if |word| == 0 then []
    else [if word[0] == c then c else mask[0]] + Reveal(word[1..], mask[1..], c)
  }

  /** `update_word_guessed`: reveal every occurrence of `c` and count one
      letter fewer, however many positions `c` occupies. */
  function UpdateWordGuessed(g: Game, c: char): (r: Game)
    requires |g.wordGuessed| == |g.word|
    ensures |r.wordGuessed| == |g.wordGuessed|
    ensures forall i :: 0 <= i < |g.word| && g.word[i] == c ==> r.wordGuessed[i] == c
    ensures forall i :: 0 <= i < |g.word| && g.word[i] != c ==> r.wordGuessed[i] == g.wordGuessed[i]
    ensures r.numLetters == g.numLetters - 1
    ensures r.word == g.word && r.wordList == g.wordList
    ensures r.numLives == g.numLives && r.listOfGuesses == g.listOfGuesses
  {
    g.(wordGuessed := Reveal(g.word, g.wordGuessed, c), numLetters := g.numLetters - 1)
  }

  /** The state part of `handle_incorrect_guess`: one life fewer. */
  function HandleIncorrectGuess(g: Game): (r: Game)
    ensures r.numLives == g.numLives - 1
    ensures r.word == g.word && r.wordGuessed == g.wordGuessed && r.numLetters == g.numLetters
    ensures r.wordList == g.wordList && r.listOfGuesses == g.listOfGuesses
  {
    g.(numLives := g.numLives - 1)
  }

  /** `check_guess` on a one-character guess: lower it, then reveal it if the
      word contains it and take a life otherwise. The history is not touched
      here. */
  function CheckGuess(g: Game, guess: char): (r: Game)
    requires |g.wordGuessed| == |g.word|
    ensures r.word == g.word && r.wordList == g.wordList && r.listOfGuesses == g.listOfGuesses
    ensures |r.wordGuessed| == |g.wordGuessed|
    ensures Lower(guess) in g.word ==>
      && r.numLives == g.numLives
      && r.numLetters == g.numLetters - 1
      && (forall i :: 0 <= i < |g.word| && g.word[i] == Lower(guess) ==> r.wordGuessed[i] == Lower(guess))
      && (forall i :: 0 <= i < |g.word| && g.word[i] != Lower(guess) ==> r.wordGuessed[i] == g.wordGuessed[i])
    ensures Lower(guess) !in g.word ==>
      && r.numLives == g.numLives - 1
      && r.wordGuessed == g.wordGuessed
      && r.numLetters == g.numLetters
  {
    var c := Lower(guess);
    if c in g.word then UpdateWordGuessed(g, c) else HandleIncorrectGuess(g)
  }

  /** How the accept step disposes of one candidate. */
  datatype Verdict = NotASingleLetter | AlreadyTried | Accepted

  /** The result of one accept step: the new state and the verdict. */
  datatype Step = Step(game: Game, verdict: Verdict)

  /** One pass of `ask_for_input`'s loop body on the candidate the player
      typed: reject it if it is not one letter or if this exact string is in
      the history; otherwise record the raw string and evaluate it. */
  function AskForInput(g: Game, candidate: string): (r: Step)
    requires |g.wordGuessed| == |g.word|
    ensures r.verdict == NotASingleLetter <==> !SingleLetter(candidate)
    ensures r.verdict == AlreadyTried <==> SingleLetter(candidate) && candidate in g.listOfGuesses
    ensures r.verdict != Accepted ==> r.game == g
    ensures r.verdict == Accepted ==>
      && r.game.listOfGuesses == g.listOfGuesses + [candidate]
      && r.game == CheckGuess(g.(listOfGuesses := g.listOfGuesses + [candidate]), candidate[0])
  {
    if !IsAlphaStr(candidate) || |candidate| != 1 then Step(g, NotASingleLetter)
    else if candidate in g.listOfGuesses then Step(g, AlreadyTried)
    else
      var recorded := g.(listOfGuesses := g.listOfGuesses + [candidate]);
      Step(CheckGuess(recorded, candidate[0]), Accepted)
  }

  /** Successive passes of `ask_for_input`'s loop body, one per candidate,
      left to right, as across repeated calls of `ask_for_input` by a driver;
      a pass that accepts is followed by the next call's first pass. */
  function Play(g: Game, candidates: seq<string>): (r: Game)
    requires |g.wordGuessed| == |g.word|
    ensures r.word == g.word && r.wordList == g.wordList
    ensures |r.wordGuessed| == |r.word|
    ensures g.numLives - |candidates| <= r.numLives <= g.numLives
    ensures |g.listOfGuesses| <= |r.listOfGuesses| <= |g.listOfGuesses| + |candidates|
    ensures r.listOfGuesses[..|g.listOfGuesses|] == g.listOfGuesses
    decreases |candidates|
  {
    if |candidates| == 0 then g
    else Play(AskForInput(g, candidates[0]).game, candidates[1..])
  }
}
