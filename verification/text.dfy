/** Character-level helpers the game relies on: the placeholder symbol of the
    reveal mask, the ASCII restriction of Python's `str.isalpha` and
    `str.lower`, and the set of distinct characters of a word. */
module Text {

  /** The symbol shown in the reveal mask for a position not yet guessed. */
  const Placeholder: char := '_'

  /** An ASCII letter; the model's stand-in for a one-character `isalpha`.
      Only the 52 ASCII letters qualify, and the placeholder is not one. */
  predicate IsAlpha(c: char)
    ensures IsAlpha(c) ==> 'A' <= c <= 'z' && !('Z' < c < 'a')
    ensures IsAlpha(c) ==> c != Placeholder
  {
    'a' <= c <= 'z' || 'A' <= c <= 'Z'
  }

  /** A candidate that passes the accept step's format test: exactly one letter. */
  predicate SingleLetter(s: string) {
    |s| == 1 && IsAlpha(s[0])
  }

  /** `str.isalpha` on a whole string: non-empty and every character an ASCII
      letter. Together with a length of one it is exactly "a single letter". */
  predicate IsAlphaStr(s: string)
    ensures |s| == 0 ==> !IsAlphaStr(s)
    ensures IsAlphaStr(s) ==> Placeholder !in s
    ensures IsAlphaStr(s) && |s| == 1 <==> SingleLetter(s)
  {
    |s| > 0 && forall i :: 0 <= i < |s| ==> IsAlpha(s[i])
  }

  /** `str.lower` on one character, restricted to ASCII. */
  function Lower(c: char): (r: char)
    ensures IsAlpha(c) <==> 'a' <= r <= 'z'
    ensures !('A' <= r <= 'Z')
    ensures 'a' <= c <= 'z' || !IsAlpha(c) ==> r == c
    ensures 'A' <= c <= 'Z' ==> r as int - c as int == 'a' as int - 'A' as int
  {
    if 'A' <= c <= 'Z' then (c as int + ('a' as int - 'A' as int)) as char else c
  }

  /** `str.lower` on a string, character by character. */
  function LowerStr(s: string): (r: string)
    ensures |r| == |s|
    ensures forall i :: 0 <= i < |s| ==> r[i] == Lower(s[i])
  {
    if |s| == 0 then [] else [Lower(s[0])] + LowerStr(s[1..])
  }

  /** The distinct characters of a word, Python's `set(word)`. */
  function Letters(s: string): set<char> {
    set c | c in s
  }

  /** Upper and lower case of the same letter lower to the same character,
      so `Lower` does not tell `'P'` from `'p'`. */
  lemma LowerIdentifiesCases(c: char)
    requires 'a' <= c <= 'z'
    ensures var u := (c as int - ('a' as int - 'A' as int)) as char;
      u != c && Lower(u) == Lower(c)
  {
  }

  /** Lowering a one-letter string gives the one-character string of its
      lowered letter. */
  lemma LowerStrSingle(s: string)
    requires |s| == 1
    ensures LowerStr(s) == [Lower(s[0])]
  {
  }

  /** A word has no more distinct characters than positions, and a non-empty
      word has at least one. */
  lemma {:induction false} LettersBound(s: string)
    ensures |Letters(s)| <= |s|
    ensures |s| > 0 ==> |Letters(s)| >= 1
  {
    if |s| == 0 {
      assert Letters(s) == {};
    } else {
      var t := s[1..];
      LettersBound(t);
      assert Letters(s) == {s[0]} + Letters(t) by {
        forall c | c in Letters(s) ensures c in {s[0]} + Letters(t) {
          var i :| 0 <= i < |s| && s[i] == c;
          if i > 0 {
            assert t[i - 1] == c;
          }
        }
        forall c | c in Letters(t) ensures c in Letters(s) {
          var i :| 0 <= i < |t| && t[i] == c;
          assert s[i + 1] == c;
        }
      }
      assert s[0] in Letters(s);
    }
  }
}
