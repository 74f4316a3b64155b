/** The devious game (devious/Hangman.java): no goal word is fixed. The game
    keeps every dictionary word of the goal length that is still consistent
    with the guesses, and after each guess keeps the largest family of
    candidates that show the same pattern. */
module Devious {
  import opened Wrappers
  import opened Errors
  import opened Display
  import opened Dictionary

  /** The constructor's argument checks, in the order this variant makes
      them: the empty dictionary first. */
  function CheckArguments(dictionary: seq<string>, length: int, wrongGuessLimit: int): (r: Option<ConfigError>)
    ensures r == None <==>
              length >= 1 && wrongGuessLimit >= 1 && exists w :: w in dictionary && |w| == length
    ensures dictionary == [] ==> r == Some(EmptyDictionary)
    ensures dictionary != [] && length < 1 ==> r == Some(NonPositiveLength)
    ensures dictionary != [] && length >= 1 && wrongGuessLimit < 1 ==> r == Some(NonPositiveLimit)
    ensures r == Some(NoWordOfLength) <==>
              dictionary != [] && length >= 1 && wrongGuessLimit >= 1 &&
              forall w :: w in dictionary ==> |w| != length
  {
    if |dictionary| == 0 then Some(EmptyDictionary)
    else if length < 1 then Some(NonPositiveLength)
    else if wrongGuessLimit < 1 then Some(NonPositiveLimit)
    else if |OfLength(dictionary, length)| < 1 then Some(NoWordOfLength)
    else None
  }

  /** The candidates that show pattern p under the guessed letters. */
  ghost function Family(candidates: set<string>, guessed: set<char>, p: string): set<string>
  {
    set w | w in candidates && PatternOf(w, guessed) == p
  }

  /** The patterns the candidates show. */
  ghost function Patterns(candidates: set<string>, guessed: set<char>): set<string>
  {
    set w | w in candidates :: PatternOf(w, guessed)
  }

  /** Every pattern some candidate shows, mapped to its family. */
  ghost function Families(candidates: set<string>, guessed: set<char>): map<string, set<string>>
  {
    map p | p in Patterns(candidates, guessed) :: Family(candidates, guessed, p)
  }

  /** All candidates show one pattern. */
  ghost predicate SharePattern(candidates: set<string>, guessed: set<char>)
  {
    forall w, v :: w in candidates && v in candidates ==> PatternOf(w, guessed) == PatternOf(v, guessed)
  }

  /** The families of the candidates partition them: every candidate lies in
      the family of its own pattern, every family is a non-empty set of
      candidates that all show its pattern, and distinct families are
      disjoint. */
  lemma FamiliesPartition(candidates: set<string>, guessed: set<char>)
    ensures forall w :: w in candidates ==>
              PatternOf(w, guessed) in Families(candidates, guessed) &&
              w in Families(candidates, guessed)[PatternOf(w, guessed)]
    ensures forall p :: p in Families(candidates, guessed) ==>
              Families(candidates, guessed)[p] != {} &&
              Families(candidates, guessed)[p] <= candidates &&
              forall w :: w in Families(candidates, guessed)[p] ==> PatternOf(w, guessed) == p
    ensures forall p, q :: p in Families(candidates, guessed) && q in Families(candidates, guessed) && p != q ==>
              Families(candidates, guessed)[p] !! Families(candidates, guessed)[q]
  {
    var fams := Families(candidates, guessed);
    forall p | p in fams
      ensures fams[p] != {}
    {
      var w :| w in candidates && PatternOf(w, guessed) == p;
      assert w in fams[p];
    }
  }

  /** A pattern no candidate shows has an empty family. */
  lemma FamilyOfUnseenPattern(candidates: set<string>, guessed: set<char>, p: string)
    requires p !in Families(candidates, guessed)
    ensures Family(candidates, guessed, p) == {}
  {
  }

  /** One more word adds at most its own pattern. */
  lemma PatternsAddWord(done: set<string>, guessed: set<char>, word: string)
    ensures Patterns(done + {word}, guessed) == Patterns(done, guessed) + {PatternOf(word, guessed)}
  {
    var before := Patterns(done, guessed);
    var after := Patterns(done + {word}, guessed);
    forall q | q in after
      ensures q in before + {PatternOf(word, guessed)}
    {
      var v :| v in done + {word} && PatternOf(v, guessed) == q;
      if v != word {
        assert PatternOf(v, guessed) in before;
      }
    }
    assert PatternOf(word, guessed) in after;
    forall q | q in before
      ensures q in after
    {
      var v :| v in done && PatternOf(v, guessed) == q;
      assert PatternOf(v, guessed) in after;
    }
  }

  /** Adding one word to the words already grouped adds it to the family of
      its pattern and changes nothing else. */
  lemma FamiliesAddWord(done: set<string>, guessed: set<char>, word: string)
    requires word !in done
    ensures var p := PatternOf(word, guessed);
            var before := Families(done, guessed);
            Families(done + {word}, guessed) ==
              before[p := (if p in before then before[p] else {}) + {word}]
  {
    var p := PatternOf(word, guessed);
    var before := Families(done, guessed);
    var after := Families(done + {word}, guessed);
    var expected := before[p := (if p in before then before[p] else {}) + {word}];
    PatternsAddWord(done, guessed, word);
    assert after.Keys == expected.Keys;
    forall q | q in after
      ensures after[q] == expected[q]
    {
      FamilyAddWord(done, guessed, word, q);
      if q == p && p !in before {
        FamilyOfUnseenPattern(done, guessed, p);
      }
    }
  }

  /** One more word joins the family of its own pattern only. */
  lemma FamilyAddWord(done: set<string>, guessed: set<char>, word: string, p: string)
    ensures Family(done + {word}, guessed, p) ==
              Family(done, guessed, p) + (if PatternOf(word, guessed) == p then {word} else {})
  {
  }

  /** The forEach loop of record: group the candidates into a map from
      pattern to the family of words showing it. */
  method WordFamilies(candidates: set<string>, guessed: set<char>) returns (families: map<string, set<string>>)
    ensures families == Families(candidates, guessed)
  {
    families := map[];
    var rest := candidates;
    while rest != {}
      invariant rest <= candidates
      invariant families == Families(candidates - rest, guessed)
      decreases |rest|
    {
      var word :| word in rest;
      var pattern := PatternOf(word, guessed);
      var wordSet := if pattern in families then families[pattern] else {};
      FamiliesAddWord(candidates - rest, guessed, word);
      assert (candidates - rest) + {word} == candidates - (rest - {word});
      families := families[pattern := wordSet + {word}];
      rest := rest - {word};
    }
    assert candidates - rest == candidates;
  }

  /** The selection in record of the family to keep: the largest family by
      size, or an empty sorted set when there are no families. Of two equally
      large families the one met first stays. Which of several equally large
      families wins depends on the map's iteration order, so the choice here
      is left open. */
  method LargestFamily(families: map<string, set<string>>) returns (largest: set<string>)
    ensures families == map[] ==> largest == {}
    ensures families != map[] ==> largest in families.Values
    ensures forall p :: p in families ==> |families[p]| <= |largest|
  {
    largest := {};
    var found := false;
    var rest := families.Keys;
    while rest != {}
      invariant rest <= families.Keys
      invariant found <==> rest != families.Keys
      invariant found ==> largest in families.Values
      invariant !found ==> largest == {}
      invariant forall p :: p in families.Keys - rest ==> |families[p]| <= |largest|
      decreases |rest|
    {
      var p :| p in rest;
      if !found || |families[p]| > |largest| {
        largest := families[p];
      }
      found := true;
      rest := rest - {p};
    }
    if families != map[] {
      var p :| p in families;
      assert p in families.Keys;
    }
  }

  /** A subset is no larger than its superset. */
  lemma {:induction false} SubsetSize<T>(a: set<T>, b: set<T>)
    requires a <= b
    ensures |a| <= |b|
    decreases |a|
  {
    if a != {} {
      var x :| x in a;
      SubsetSize(a - {x}, b - {x});
    }
  }

  /** The heart of record: group the candidates by their pattern under the
      new guesses and keep a largest group. The result is a whole family of
      the candidates, non-empty, no smaller than any other family, and all
      its words show one pattern. */
  method Narrow(candidates: set<string>, guessed: set<char>) returns (kept: set<string>)
    requires candidates != {}
    ensures kept != {} && kept <= candidates && |kept| <= |candidates|
    ensures SharePattern(kept, guessed)
    ensures kept == Family(candidates, guessed, PatternOf(FirstWord(kept), guessed))
    ensures forall p :: |Family(candidates, guessed, p)| <= |kept|
  {
    var families := WordFamilies(candidates, guessed);
    kept := LargestFamily(families);
    KeptFamily(candidates, guessed, families, kept);
  }

  /** Candidates that show one pattern contain a guessed letter other than
      the placeholder equally often. */
  lemma SharedCount(candidates: set<string>, guessed: set<char>, c: char)
    requires SharePattern(candidates, guessed)
    requires c in guessed && c != Placeholder
    ensures forall w :: w in candidates ==> Count(w, c) == Count(FirstWord(candidates), c)
  {
    forall w | w in candidates
      ensures Count(w, c) == Count(FirstWord(candidates), c)
    {
      SamePatternSameCount(w, FirstWord(candidates), guessed, c);
    }
  }

  /** A non-empty subset of the candidates that shows one pattern is again
      a consistent candidate set. */
  lemma NarrowedConsistent(dictionary: seq<string>, length: int, candidates: set<string>,
                            kept: set<string>, guessed: set<char>)
    requires candidates <= WordsOfLength(dictionary, length)
    requires kept != {} && kept <= candidates && SharePattern(kept, guessed)
    ensures Consistent(dictionary, length, kept, guessed)
  {
  }

  /** What record needs of the family LargestFamily picks from non-empty
      candidates: it is a whole, non-empty family, as large as any, and its
      members share the pattern of its smallest member. */
  lemma KeptFamily(candidates: set<string>, guessed: set<char>,
                   families: map<string, set<string>>, kept: set<string>)
    requires candidates != {}
    requires families == Families(candidates, guessed)
    requires families != map[] ==> kept in families.Values
    requires forall p :: p in families ==> |families[p]| <= |kept|
    ensures kept != {} && kept <= candidates && |kept| <= |candidates|
    ensures SharePattern(kept, guessed)
    ensures kept == Family(candidates, guessed, PatternOf(FirstWord(kept), guessed))
    ensures forall p :: |Family(candidates, guessed, p)| <= |kept|
  {
    FamiliesPartition(candidates, guessed);
    SubsetSize(kept, candidates);
    var some :| some in candidates;
    assert PatternOf(some, guessed) in families;
    var key :| key in families && families[key] == kept;
    assert PatternOf(FirstWord(kept), guessed) == key;
    forall p
      ensures |Family(candidates, guessed, p)| <= |kept|
    {
      if p !in families {
        FamilyOfUnseenPattern(candidates, guessed, p);
      }
    }
  }

  /** What the game keeps true of its candidates: they are dictionary words
      of the goal length, there are some unless the dictionary has none of
      that length, and they all show one pattern. */
  ghost predicate Consistent(dictionary: seq<string>, length: int, candidates: set<string>, guessed: set<char>)
  {
    && candidates <= WordsOfLength(dictionary, length)
    && (candidates == {} ==> OfLength(dictionary, length) == [])
    && SharePattern(candidates, guessed)
  }

  class Hangman {
    /** candidateDictionary: the list of potential goal words. */
    const dictionary: seq<string>
    const goalLength: int
    const guessLimit: int
    /** goalWords: None (Java null) until words() first runs, then the
        candidates still in play. */
    var goalWords: Option<set<string>>
    var guessesLeft: int
    var guessedLetters: set<char>

    /** The candidate set words() returns: the cache once set, otherwise
        what the first call will cache. */
    ghost function Candidates(): set<string>
      reads this
    {
      if goalWords.Some? then goalWords.value else WordsOfLength(dictionary, goalLength)
    }

    /** What every public operation keeps. */
    ghost predicate Valid()
      reads this
    {
      && goalLength >= 1 && guessLimit >= 1
      && 0 <= guessesLeft <= guessLimit
      && Consistent(dictionary, goalLength, Candidates(), guessedLetters)
    }

    /** The field assignments that follow the argument checks. */
    constructor (dictionary: seq<string>, length: int, wrongGuessLimit: int)
      requires CheckArguments(dictionary, length, wrongGuessLimit) == None
      ensures Valid()
      ensures this.dictionary == dictionary && goalLength == length && guessLimit == wrongGuessLimit
      ensures guessesLeft == wrongGuessLimit && guessedLetters == {} && goalWords == None
    {
      this.dictionary := dictionary;
      goalLength := length;
      guessLimit := wrongGuessLimit;
      guessesLeft := wrongGuessLimit;
      guessedLetters := {};
      goalWords := None;
      new;
      WordsOfLengthSize(dictionary, length);
      var all := WordsOfLength(dictionary, length);
      forall w | w in all
        ensures PatternOf(w, {}) == PatternOf(FirstWord(all), {})
      {
        SameLengthSameBlankPattern(w, FirstWord(all));
      }
    }

    /** new Hangman(dictionary, length, wrongGuessLimit): fails with the first
        argument check that does not pass, otherwise a game with the whole
        budget left, nothing guessed and every word of the goal length in play. */
    static method Create(dictionary: seq<string>, length: int, wrongGuessLimit: int)
      returns (r: Result<Hangman, ConfigError>)
      ensures r.Err? <==> CheckArguments(dictionary, length, wrongGuessLimit).Some?
      ensures r.Err? ==> CheckArguments(dictionary, length, wrongGuessLimit) == Some(r.error)
      ensures r.Ok? ==> fresh(r.value) && r.value.Valid()
      ensures r.Ok? ==> r.value.dictionary == dictionary && r.value.goalLength == length
      ensures r.Ok? ==> r.value.guessLimit == wrongGuessLimit && r.value.guessesLeft == wrongGuessLimit
      ensures r.Ok? ==> r.value.guessedLetters == {} && r.value.goalWords == None
    {
      var check := CheckArguments(dictionary, length, wrongGuessLimit);
      if check.Some? {
        return Err(check.value);
      }
      var h := new Hangman(dictionary, length, wrongGuessLimit);
      return Ok(h);
    }

    /** words(): on the first call caches exactly the dictionary words of the
        goal length, duplicates collapsed; later calls return the cache. */
    method Words() returns (words: set<string>)
      requires Valid()
      modifies this`goalWords
      ensures Valid() && Candidates() == old(Candidates())
      ensures goalWords == Some(words)
      ensures old(goalWords).Some? ==> words == old(goalWords).value
      ensures old(goalWords).None? ==> forall w :: w in words <==> w in dictionary && |w| == goalLength
    {
      if goalWords.Some? {
        return goalWords.value;
      }
      goalWords := Some(WordsOfLength(dictionary, goalLength));
      words := goalWords.value;
    }

    function WrongGuessLimit(): (n: int)
      requires Valid()
      reads this
      ensures n >= 1
    {
      guessLimit
    }

    function GuessesLeft(): (n: int)
      requires Valid()
      reads this
      ensures 0 <= n <= guessLimit
    {
      guessesLeft
    }

    /** guesses(): the guessed letters in the order a TreeSet iterates them. */
    function Guesses(): (letters: seq<char>)
      reads this
      ensures |letters| == |guessedLetters|
      ensures forall c :: c in letters <==> c in guessedLetters
      ensures forall i, j :: 0 <= i < j < |letters| ==> letters[i] < letters[j]
    {
      SortedLettersMembers(guessedLetters);
      SortedLettersAscending(guessedLetters);
      SortedLetters(guessedLetters)
    }

    /** getFirstGoalWord(): the first candidate the set yields, or "" when
        there is none. Until the first successful record the cache is the
        hash set words() collected, whose first element is unspecified; from
        then on it is a family, a sorted set, whose first element is the
        smallest. A successful record is exactly what makes the guesses
        non-empty. */
    method FirstGoalWord() returns (first: string)
      requires Valid()
      modifies this`goalWords
      ensures Valid() && Candidates() == old(Candidates()) && goalWords.Some?
      ensures Candidates() == {} ==> first == ""
      ensures Candidates() != {} ==> first in Candidates()
      ensures guessedLetters != {} ==> first == FirstWord(Candidates())
    {
      var words := Words();
      if words == {} {
        first := "";
      } else if guessedLetters == {} {
        first :| first in words;
      } else {
        first := FirstWord(words);
      }
    }

    /** pattern(): the pattern every candidate shows under the letters
        guessed so far ("" when there is no candidate). */
    method Pattern() returns (p: string)
      requires Valid()
      modifies this`goalWords
      ensures Valid() && Candidates() == old(Candidates()) && goalWords.Some?
      ensures Candidates() == {} ==> p == ""
      ensures forall w :: w in Candidates() ==> PatternOf(w, guessedLetters) == p
    {
      var first := FirstGoalWord();
      p := PatternOf(first, guessedLetters);
    }

    /** record(guess): the three checks in order; then the letter joins the
        guesses, the candidates shrink to a largest family under the new
        guesses, the smallest survivor's occurrences of the letter are
        returned, and a miss costs one guess. */
    method Record(guess: char) returns (r: Result<nat, GuessError>)
      requires Valid()
      modifies this
      ensures Valid()
      ensures r == Err(NoGuessesLeft) <==> old(guessesLeft) <= 0
      ensures r == Err(NoGoalWord) <==> old(guessesLeft) > 0 && old(Candidates()) == {}
      ensures r == Err(AlreadyGuessed(guess)) <==>
                old(guessesLeft) > 0 && old(Candidates()) != {} && guess in old(guessedLetters)
      ensures r.Ok? <==>
                old(guessesLeft) > 0 && old(Candidates()) != {} && guess !in old(guessedLetters)
      ensures r.Err? ==> Candidates() == old(Candidates())
      ensures r.Err? ==> guessedLetters == old(guessedLetters) && guessesLeft == old(guessesLeft)
      ensures r.Ok? ==> guessedLetters == old(guessedLetters) + {guess}
      ensures r.Ok? ==> Candidates() != {} && Candidates() <= old(Candidates())
      ensures r.Ok? ==> |Candidates()| <= |old(Candidates())|
      ensures r.Ok? ==>
                Candidates() == Family(old(Candidates()), guessedLetters, PatternOf(FirstWord(Candidates()), guessedLetters))
      ensures r.Ok? ==> forall p :: |Family(old(Candidates()), guessedLetters, p)| <= |Candidates()|
      ensures r.Ok? ==> r.value == Count(FirstWord(Candidates()), guess)
      ensures r.Ok? && guess != Placeholder ==> forall w :: w in Candidates() ==> Count(w, guess) == r.value
      ensures r.Ok? ==> guessesLeft == if r.value == 0 then old(guessesLeft) - 1 else old(guessesLeft)
      ensures OfLength(dictionary, goalLength) != [] ==> r != Err(NoGoalWord)
    {
      if guessesLeft <= 0 {
        return Err(NoGuessesLeft);
      }
      var words := Words();
      if |words| == 0 {
        return Err(NoGoalWord);
      }
      if guess in guessedLetters {
        return Err(AlreadyGuessed(guess));
      }
      var revealed := Commit(words, guess);
      return Ok(revealed);
    }

    /** The part of record after its checks: the letter joins the guesses,
        the candidates shrink to a largest family, and a miss costs a guess. */
    method Commit(words: set<string>, guess: char) returns (revealed: nat)
      requires Valid() && goalWords == Some(words) && words != {}
      requires guessesLeft > 0 && guess !in guessedLetters
      modifies this
      ensures Valid()
      ensures guessedLetters == old(guessedLetters) + {guess}
      ensures Candidates() != {} && Candidates() <= words && |Candidates()| <= |words|
      ensures Candidates() == Family(words, guessedLetters, PatternOf(FirstWord(Candidates()), guessedLetters))
      ensures forall p :: |Family(words, guessedLetters, p)| <= |Candidates()|
      ensures revealed == Count(FirstWord(Candidates()), guess)
      ensures guess != Placeholder ==> forall w :: w in Candidates() ==> Count(w, guess) == revealed
      ensures guessesLeft == if revealed == 0 then old(guessesLeft) - 1 else old(guessesLeft)
    {
      var guessed := guessedLetters + {guess};
      var kept := Narrow(words, guessed);
      // getFirstGoalWord() once goalWords holds kept, a sorted set
      revealed := Count(FirstWord(kept), guess);
      if guess != Placeholder {
        SharedCount(kept, guessed, guess);
      }
      NarrowedConsistent(dictionary, goalLength, words, kept, guessed);
      guessedLetters := guessed;
      goalWords := Some(kept);
      guessesLeft := if revealed == 0 then guessesLeft - 1 else guessesLeft;
      assert Candidates() == kept && guessedLetters == guessed;
      assert Consistent(dictionary, goalLength, Candidates(), guessedLetters);
    }
  }
}
