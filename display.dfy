/** The hangman display pattern (getPattern in both variants) and letter
    counting, shared by the normal and the devious game. */
module Display {

  /** Shown in place of a letter that has not been guessed. */
  const Placeholder: char := '-'

  /** Put between two tokens of a pattern. */
  const Separator: char := ' '

  /** The token shown for letter c once the letters in guessed have been tried. */
  function Reveal(c: char, guessed: set<char>): (r: char)
    ensures r == c || r == Placeholder
    ensures r == c <==> c in guessed || c == Placeholder
  {
    if c in guessed then c else Placeholder
  }

  /** The word with every letter not in guessed replaced by the placeholder. */
  function Mask(word: string, guessed: set<char>): (m: seq<char>)
    ensures |m| == |word|
    ensures forall i :: 0 <= i < |word| ==> m[i] == Reveal(word[i], guessed)
  {
    if word == [] then [] else [Reveal(word[0], guessed)] + Mask(word[1..], guessed)
  }

  /** The tokens with one separator between each two neighbours. */
  function Join(tokens: seq<char>): (s: string)
    ensures |s| == if tokens == [] then 0 else 2 * |tokens| - 1
    ensures forall k :: 0 <= k < |s| ==> s[k] == if k % 2 == 0 then tokens[k / 2] else Separator
  {
    if |tokens| <= 1 then tokens else [tokens[0], Separator] + Join(tokens[1..])
  }

  /** getPattern(word, guesses): token i is word[i] when that letter was
      guessed and the placeholder otherwise, tokens separated by one space. */
  function PatternOf(word: string, guessed: set<char>): (p: string)
    ensures |p| == if word == [] then 0 else 2 * |word| - 1
    ensures forall k :: 0 <= k < |p| ==>
              p[k] == if k % 2 == 0 then Reveal(word[k / 2], guessed) else Separator
  {
    Join(Mask(word, guessed))
  }

  /** The number of occurrences of c in word. */
  function Count(word: string, c: char): (n: nat)
    ensures n <= |word|
  {
    if word == [] then 0 else (if word[0] == c then 1 else 0) + Count(word[1..], c)
  }

  /** A letter is counted zero times exactly when the word lacks it. */
  lemma {:induction false} CountZeroIff(word: string, c: char)
    ensures Count(word, c) == 0 <==> c !in word
  {
    if word != [] {
      CountZeroIff(word[1..], c);
      assert word == [word[0]] + word[1..];
    }
  }

  /** Joining loses nothing: the tokens can be read back from the string. */
  lemma {:induction false} JoinInjective(a: seq<char>, b: seq<char>)
    requires Join(a) == Join(b)
    ensures a == b
  {
    assert |a| == |b|;
    forall i | 0 <= i < |a|
      ensures a[i] == b[i]
    {
      assert Join(a)[2 * i] == a[i];
      assert Join(b)[2 * i] == b[i];
    }
  }

  /** Two words share a pattern exactly when they have the same length and
      agree on every position whose letter (in either word) was guessed. */
  lemma {:induction false} SamePatternIff(w: string, v: string, guessed: set<char>)
    ensures PatternOf(w, guessed) == PatternOf(v, guessed) <==>
              |w| == |v| && forall i :: 0 <= i < |w| ==> Reveal(w[i], guessed) == Reveal(v[i], guessed)
  {
    if PatternOf(w, guessed) == PatternOf(v, guessed) {
      JoinInjective(Mask(w, guessed), Mask(v, guessed));
    }
    if |w| == |v| && forall i :: 0 <= i < |w| ==> Reveal(w[i], guessed) == Reveal(v[i], guessed) {
      assert Mask(w, guessed) == Mask(v, guessed);
    }
  }

  /** A guessed letter other than the placeholder is counted equally in the
      word and in its mask. */
  lemma {:induction false} CountThroughMask(word: string, guessed: set<char>, c: char)
    requires c in guessed && c != Placeholder
    ensures Count(Mask(word, guessed), c) == Count(word, c)
  {
    if word != [] {
      assert Mask(word, guessed)[1..] == Mask(word[1..], guessed);
      CountThroughMask(word[1..], guessed, c);
    }
  }

  /** Words that show the same pattern contain a guessed letter equally often,
      unless that letter is the placeholder itself. */
  lemma SamePatternSameCount(w: string, v: string, guessed: set<char>, c: char)
    requires c in guessed && c != Placeholder
    requires PatternOf(w, guessed) == PatternOf(v, guessed)
    ensures Count(w, c) == Count(v, c)
  {
    JoinInjective(Mask(w, guessed), Mask(v, guessed));
    CountThroughMask(w, guessed, c);
    CountThroughMask(v, guessed, c);
  }

  /** The exception to SamePatternSameCount: once the placeholder itself has
      been guessed, "--" and "ab" show the same pattern but hold it twice and
      not at all. */
  lemma PlaceholderGuessHidesCount()
    ensures PatternOf("--", {Placeholder}) == PatternOf("ab", {Placeholder})
    ensures Count("--", Placeholder) == 2 && Count("ab", Placeholder) == 0
  {
    CountZeroIff("ab", Placeholder);
    SamePatternIff("--", "ab", {Placeholder});
    assert "--"[1..] == "-";
  }

  /** Before any guess, words of one length all show the same pattern. */
  lemma SameLengthSameBlankPattern(w: string, v: string)
    requires |w| == |v|
    ensures PatternOf(w, {}) == PatternOf(v, {})
  {
    SamePatternIff(w, v, {});
  }
}
