/** The normal game (normal/Hangman.java): one goal word, picked at random
    from the dictionary words of the goal length the first time the goal is
    needed, and fixed from then on. */
module Normal {
  import opened Wrappers
  import opened Errors
  import opened Display
  import opened Dictionary

  /** The constructor's argument checks, in the order this variant makes them. */
  function CheckArguments(dictionary: seq<string>, length: int, wrongGuessLimit: int): (r: Option<ConfigError>)
    ensures r == None <==>
              length >= 1 && wrongGuessLimit >= 1 && exists w :: w in dictionary && |w| == length
    ensures length < 1 ==> r == Some(NonPositiveLength)
    ensures length >= 1 && wrongGuessLimit < 1 ==> r == Some(NonPositiveLimit)
    ensures length >= 1 && wrongGuessLimit >= 1 && dictionary == [] ==> r == Some(EmptyDictionary)
    ensures r == Some(NoWordOfLength) <==>
              length >= 1 && wrongGuessLimit >= 1 && dictionary != [] &&
              forall w :: w in dictionary ==> |w| != length
  {
    if length < 1 then Some(NonPositiveLength)
    else if wrongGuessLimit < 1 then Some(NonPositiveLimit)
    else if |dictionary| == 0 then Some(EmptyDictionary)
    else if |OfLength(dictionary, length)| < 1 then Some(NoWordOfLength)
    else None
  }

  class Hangman {
    /** candidateDictionary: the list of potential goal words. */
    const dictionary: seq<string>
    const goalLength: int
    const guessLimit: int
    /** goalWords: None (Java null) until words() first runs, then the goal. */
    var goalWords: Option<set<string>>
    var guessesLeft: int
    var guessedLetters: set<char>

    /** What every public operation keeps. It does not demand a word of the
        goal length, so the defensive empty-goal paths stay reachable. */
    ghost predicate Valid()
      reads this
    {
      && goalLength >= 1 && guessLimit >= 1
      && 0 <= guessesLeft <= guessLimit
      && (goalWords.Some? ==>
            && |goalWords.value| <= 1
            && (goalWords.value == {} <==> OfLength(dictionary, goalLength) == [])
            && forall w :: w in goalWords.value ==> w in dictionary && |w| == goalLength)
    }

    /** The field assignments that follow the argument checks. */
    constructor (dictionary: seq<string>, length: int, wrongGuessLimit: int)
      requires CheckArguments(dictionary, length, wrongGuessLimit) == None
      ensures Valid()
      ensures this.dictionary == dictionary && goalLength == length && guessLimit == wrongGuessLimit
      ensures guessesLeft == wrongGuessLimit && guessedLetters == {} && goalWords == None
    {
      this.dictionary := dictionary;
      goalLength := length;
      guessLimit := wrongGuessLimit;
      guessesLeft := wrongGuessLimit;
      guessedLetters := {};
      goalWords := None;
    }

    /** new Hangman(dictionary, length, wrongGuessLimit): fails with the first
        argument check that does not pass, otherwise a game with the whole
        budget left and nothing guessed. */
    static method Create(dictionary: seq<string>, length: int, wrongGuessLimit: int)
      returns (r: Result<Hangman, ConfigError>)
      ensures r.Err? <==> CheckArguments(dictionary, length, wrongGuessLimit).Some?
      ensures r.Err? ==> CheckArguments(dictionary, length, wrongGuessLimit) == Some(r.error)
      ensures r.Ok? ==> fresh(r.value) && r.value.Valid()
      ensures r.Ok? ==> r.value.dictionary == dictionary && r.value.goalLength == length
      ensures r.Ok? ==> r.value.guessLimit == wrongGuessLimit && r.value.guessesLeft == wrongGuessLimit
      ensures r.Ok? ==> r.value.guessedLetters == {} && r.value.goalWords == None
    {
      var check := CheckArguments(dictionary, length, wrongGuessLimit);
      if check.Some? {
        return Err(check.value);
      }
      var h := new Hangman(dictionary, length, wrongGuessLimit);
      return Ok(h);
    }

    /** words(): on the first call picks one dictionary word of the goal
        length (any of them: the source draws a random index) and caches it;
        later calls return the cached set. */
    method Words() returns (words: set<string>)
      requires Valid()
      modifies this`goalWords
      ensures Valid()
      ensures goalWords == Some(words)
      ensures old(goalWords).Some? ==> words == old(goalWords).value
      ensures |words| <= 1
      ensures words == {} <==> OfLength(dictionary, goalLength) == []
      ensures forall w :: w in words ==> w in dictionary && |w| == goalLength
    {
      if goalWords.Some? {
        return goalWords.value;
      }
      var wordsOfLength := OfLength(dictionary, goalLength);
      var wordList: set<string> := {};
      if |wordsOfLength| != 0 {
        var i :| 0 <= i < |wordsOfLength|;
        wordList := {wordsOfLength[i]};
      }
      goalWords := Some(wordList);
      words := wordList;
    }

    function WrongGuessLimit(): (n: int)
      requires Valid()
      reads this
      ensures n >= 1
    {
      guessLimit
    }

    function GuessesLeft(): (n: int)
      requires Valid()
      reads this
      ensures 0 <= n <= guessLimit
    {
      guessesLeft
    }

    /** guesses(): the guessed letters in the order a TreeSet iterates them. */
    function Guesses(): (letters: seq<char>)
      reads this
      ensures |letters| == |guessedLetters|
      ensures forall c :: c in letters <==> c in guessedLetters
      ensures forall i, j :: 0 <= i < j < |letters| ==> letters[i] < letters[j]
    {
      SortedLettersMembers(guessedLetters);
      SortedLettersAscending(guessedLetters);
      SortedLetters(guessedLetters)
    }

    /** getFirstGoalWord(): the goal word, or "" when there is none. */
    method FirstGoalWord() returns (goal: string)
      requires Valid()
      modifies this`goalWords
      ensures Valid()
      ensures goalWords.Some? && (old(goalWords).Some? ==> goalWords == old(goalWords))
      ensures goalWords.value == {} ==> goal == ""
      ensures goalWords.value != {} ==> goalWords.value == {goal}
    {
      var words := Words();
      goal := FirstWord(words);
      if words != {} {
        assert |words - {goal}| == 0;
      }
    }

    /** pattern(): the display pattern of the goal word under the letters
        guessed so far ("" when there is no goal word). */
    method Pattern() returns (p: string)
      requires Valid()
      modifies this`goalWords
      ensures Valid()
      ensures goalWords.Some? && (old(goalWords).Some? ==> goalWords == old(goalWords))
      ensures goalWords.value == {} ==> p == ""
      ensures forall w :: w in goalWords.value ==> p == PatternOf(w, guessedLetters)
    {
      var goal := FirstGoalWord();
      p := PatternOf(goal, guessedLetters);
    }

    /** record(guess): the three checks in order, then the letter joins the
        guesses, the goal word's occurrences of it are returned, and a miss
        costs one guess. */
    method Record(guess: char) returns (r: Result<nat, GuessError>)
      requires Valid()
      modifies this
      ensures Valid()
      ensures old(guessesLeft) <= 0 ==> r == Err(NoGuessesLeft) && goalWords == old(goalWords)
      ensures old(guessesLeft) > 0 ==>
                goalWords.Some? && (old(goalWords).Some? ==> goalWords == old(goalWords))
      ensures r == Err(NoGoalWord) <==> old(guessesLeft) > 0 && goalWords.value == {}
      ensures r == Err(AlreadyGuessed(guess)) <==>
                old(guessesLeft) > 0 && goalWords.value != {} && guess in old(guessedLetters)
      ensures r.Ok? <==>
                old(guessesLeft) > 0 && goalWords.value != {} && guess !in old(guessedLetters)
      ensures r.Err? ==> guessedLetters == old(guessedLetters) && guessesLeft == old(guessesLeft)
      ensures r.Ok? ==> guessedLetters == old(guessedLetters) + {guess}
      ensures r.Ok? ==> goalWords.value == {FirstWord(goalWords.value)}
      ensures r.Ok? ==> r.value == Count(FirstWord(goalWords.value), guess)
      ensures r.Ok? ==> guessesLeft == if r.value == 0 then old(guessesLeft) - 1 else old(guessesLeft)
      ensures OfLength(dictionary, goalLength) != [] ==> r != Err(NoGoalWord)
    {
      if guessesLeft <= 0 {
        return Err(NoGuessesLeft);
      }
      var words := Words();
      if |words| == 0 {
        return Err(NoGoalWord);
      }
      if guess in guessedLetters {
        return Err(AlreadyGuessed(guess));
      }
      guessedLetters := guessedLetters + {guess};
      var goal := FirstGoalWord();
      var revealed := Count(goal, guess);
      if revealed == 0 {
        guessesLeft := guessesLeft - 1;
      }
      return Ok(revealed);
    }
  }

  /** The letters of a sequence of guesses, as a set. */
  function Letters(guesses: seq<char>): set<char>
  {
    set c | c in guesses
  }

  /** How many of the guesses occur zero times in word. */
  function Misses(word: string, guesses: seq<char>): (n: nat)
    ensures n <= |guesses|
  {
    if guesses == [] then 0
    else Misses(word, guesses[..|guesses| - 1]) + (if Count(word, guesses[|guesses| - 1]) == 0 then 1 else 0)
  }

  /** Misses only grow as guesses are added. */
  lemma {:induction false} MissesOfPrefix(word: string, guesses: seq<char>, i: nat)
    requires i <= |guesses|
    ensures Misses(word, guesses[..i]) <= Misses(word, guesses)
    decreases |guesses|
  {
    if i < |guesses| {
      assert guesses[..|guesses| - 1][..i] == guesses[..i];
      MissesOfPrefix(word, guesses[..|guesses| - 1], i);
    } else {
      assert guesses[..i] == guesses;
    }
  }

  /** What the next guess adds to the letters and misses of a prefix. */
  lemma PrefixStep(word: string, guesses: seq<char>, i: nat)
    requires i < |guesses|
    requires forall i, j :: 0 <= i < j < |guesses| ==> guesses[i] != guesses[j]
    ensures guesses[i] !in Letters(guesses[..i])
    ensures Letters(guesses[..i + 1]) == Letters(guesses[..i]) + {guesses[i]}
    ensures Misses(word, guesses[..i + 1]) ==
              Misses(word, guesses[..i]) + (if Count(word, guesses[i]) == 0 then 1 else 0)
    ensures Misses(word, guesses[..i]) <= Misses(word, guesses[..|guesses| - 1])
  {
    assert guesses[..i + 1] == guesses[..i] + [guesses[i]];
    assert guesses[..i + 1][..i] == guesses[..i];
    MissesOfPrefix(word, guesses[..|guesses| - 1], i);
    assert guesses[..|guesses| - 1][..i] == guesses[..i];
  }

  /** One round of the unit tests' helper on a one-word game: record a new
      letter, then read the pattern. */
  method GuessAndShow(game: Hangman, word: string, g: char) returns (count: nat, p: string)
    requires game.Valid() && game.dictionary == [word] && game.goalLength == |word|
    requires game.goalWords == None || game.goalWords == Some({word})
    requires game.guessesLeft > 0 && g !in game.guessedLetters
    modifies game
    ensures game.Valid() && game.goalWords == Some({word})
    ensures game.guessedLetters == old(game.guessedLetters) + {g}
    ensures game.guessesLeft == old(game.guessesLeft) - (if Count(word, g) == 0 then 1 else 0)
    ensures count == Count(word, g)
    ensures p == PatternOf(word, game.guessedLetters)
  {
    assert word in [word];
    var r := game.Record(g);
    assert game.goalWords.value == {word};
    count := r.value;
    p := game.Pattern();
  }

  /** The rounds of the unit tests' helper on a fresh one-word game: each
      distinct guess in order is recorded and the pattern read back. */
  method PlayRounds(game: Hangman, word: string, guesses: seq<char>)
    returns (counts: seq<nat>, patterns: seq<string>)
    requires game.Valid() && game.dictionary == [word] && game.goalLength == |word|
    requires game.goalWords == None && game.guessedLetters == {} && game.guessesLeft == game.guessLimit
    requires forall i, j :: 0 <= i < j < |guesses| ==> guesses[i] != guesses[j]
    requires guesses != [] ==> Misses(word, guesses[..|guesses| - 1]) < game.guessLimit
    modifies game
    ensures |counts| == |patterns| == |guesses|
    ensures forall i :: 0 <= i < |guesses| ==> counts[i] == Count(word, guesses[i])
    ensures forall i :: 0 <= i < |guesses| ==> patterns[i] == PatternOf(word, Letters(guesses[..i + 1]))
    ensures game.Valid() && game.guessedLetters == Letters(guesses)
    ensures game.guessesLeft == game.guessLimit - Misses(word, guesses)
  {
    counts, patterns := [], [];
    var i := 0;
    while i < |guesses|
      invariant 0 <= i <= |guesses|
      invariant game.Valid() && game.dictionary == [word] && game.goalLength == |word|
      invariant game.goalWords == if i == 0 then None else Some({word})
      invariant game.guessedLetters == Letters(guesses[..i])
      invariant game.guessesLeft == game.guessLimit - Misses(word, guesses[..i])
      invariant |counts| == |patterns| == i
      invariant forall k :: 0 <= k < i ==> counts[k] == Count(word, guesses[k])
      invariant forall k :: 0 <= k < i ==> patterns[k] == PatternOf(word, Letters(guesses[..k + 1]))
    {
      var g := guesses[i];
      PrefixStep(word, guesses, i);
      var count, p := GuessAndShow(game, word, g);
      assert game.guessedLetters == Letters(guesses[..i + 1]);
      ghost var counts0, patterns0 := counts, patterns;
      counts := counts + [count];
      patterns := patterns + [p];
      forall k | 0 <= k < i + 1
        ensures counts[k] == Count(word, guesses[k])
        ensures patterns[k] == PatternOf(word, Letters(guesses[..k + 1]))
      {
        if k < i {
          assert counts[k] == counts0[k] && patterns[k] == patterns0[k];
        }
      }
      i := i + 1;
    }
    assert guesses[..i] == guesses;
  }

  /** A game over the one-word dictionary [word], playing the given distinct
      guesses in order and reading the pattern after each, as the unit tests'
      helper does: every guess is answered with its count in word, every
      pattern shows word under the guesses so far, each miss costs one guess,
      and guesses() holds every letter played. */
  method PlaySingleWord(word: string, guesses: seq<char>, limit: int)
    returns (counts: seq<nat>, patterns: seq<string>, left: int, letters: seq<char>)
    requires |word| >= 1 && limit >= 1
    requires forall i, j :: 0 <= i < j < |guesses| ==> guesses[i] != guesses[j]
    requires guesses != [] ==> Misses(word, guesses[..|guesses| - 1]) < limit
    ensures |counts| == |patterns| == |guesses|
    ensures forall i :: 0 <= i < |guesses| ==> counts[i] == Count(word, guesses[i])
    ensures forall i :: 0 <= i < |guesses| ==> patterns[i] == PatternOf(word, Letters(guesses[..i + 1]))
    ensures left == limit - Misses(word, guesses)
    ensures forall c :: c in letters <==> c in guesses
  {
    assert word in [word];
    var created := Hangman.Create([word], |word|, limit);
    var game := created.value;
    counts, patterns := PlayRounds(game, word, guesses);
    left := game.GuessesLeft();
    letters := game.Guesses();
  }
}

/** The two single-word games of the normal variant's unit tests, with the
    answers they expect. */
module NormalScenarios {
  import opened Display
  import opened Normal

  /** The pattern of "hello", token by token. */
  lemma HelloPattern(guessed: set<char>)
    ensures PatternOf("hello", guessed) ==
              [Reveal('h', guessed), ' ', Reveal('e', guessed), ' ', Reveal('l', guessed), ' ',
               Reveal('l', guessed), ' ', Reveal('o', guessed)]
  {
  }

  /** The misses of r, s, t, l, n, e against "hello", prefix by prefix. */
  lemma MixedGuessesMisses()
    ensures Misses("hello", ['r']) == 1
    ensures Misses("hello", ['r', 's']) == 2
    ensures Misses("hello", ['r', 's', 't']) == 3
    ensures Misses("hello", ['r', 's', 't', 'l']) == 3
    ensures Misses("hello", ['r', 's', 't', 'l', 'n']) == 4
    ensures Misses("hello", ['r', 's', 't', 'l', 'n', 'e']) == 4
  {
    assert ['r', 's'][..1] == ['r'];
    assert ['r', 's', 't'][..2] == ['r', 's'];
    assert ['r', 's', 't', 'l'][..3] == ['r', 's', 't'];
    assert ['r', 's', 't', 'l', 'n'][..4] == ['r', 's', 't', 'l'];
    assert ['r', 's', 't', 'l', 'n', 'e'][..5] == ['r', 's', 't', 'l', 'n'];
  }

  /** A sequence of six elements, given element by element. */
  lemma SixElements<T>(s: seq<T>, a: T, b: T, c: T, d: T, e: T, f: T)
    requires |s| == 6
    requires s[0] == a && s[1] == b && s[2] == c && s[3] == d && s[4] == e && s[5] == f
    ensures s == [a, b, c, d, e, f]
  {
  }

  /** How often each of r, s, t, l, n, e occurs in "hello". */
  lemma MixedGuessesCounts()
    ensures Count("hello", 'r') == 0 && Count("hello", 's') == 0 && Count("hello", 't') == 0
    ensures Count("hello", 'l') == 2 && Count("hello", 'n') == 0 && Count("hello", 'e') == 1
  {
  }

  /** The letters guessed after each of r, s, t, l, n, e. */
  lemma MixedGuessesLetters(guesses: seq<char>)
    requires guesses == ['r', 's', 't', 'l', 'n', 'e']
    ensures Letters(guesses[..1]) == {'r'}
    ensures Letters(guesses[..2]) == {'r', 's'}
    ensures Letters(guesses[..3]) == {'r', 's', 't'}
    ensures Letters(guesses[..4]) == {'r', 's', 't', 'l'}
    ensures Letters(guesses[..5]) == {'r', 's', 't', 'l', 'n'}
    ensures Letters(guesses[..6]) == {'r', 's', 't', 'l', 'n', 'e'}
  {
    assert guesses[..1] == ['r'] && guesses[..2] == ['r', 's'] && guesses[..3] == ['r', 's', 't'];
    assert guesses[..4] == ['r', 's', 't', 'l'] && guesses[..5] == ['r', 's', 't', 'l', 'n'];
    assert guesses[..6] == guesses;
  }

  /** The patterns shown after each of r, s, t, l, n, e against "hello". */
  lemma MixedGuessesPatterns()
    ensures PatternOf("hello", {'r'}) == "- - - - -"
    ensures PatternOf("hello", {'r', 's'}) == "- - - - -"
    ensures PatternOf("hello", {'r', 's', 't'}) == "- - - - -"
    ensures PatternOf("hello", {'r', 's', 't', 'l'}) == "- - l l -"
    ensures PatternOf("hello", {'r', 's', 't', 'l', 'n'}) == "- - l l -"
    ensures PatternOf("hello", {'r', 's', 't', 'l', 'n', 'e'}) == "- e l l -"
  {
    HelloPattern({'r'});
    HelloPattern({'r', 's'});
    HelloPattern({'r', 's', 't'});
    HelloPattern({'r', 's', 't', 'l'});
    HelloPattern({'r', 's', 't', 'l', 'n'});
    HelloPattern({'r', 's', 't', 'l', 'n', 'e'});
  }

  /** Guesses r, s, t, l, n, e against "hello" with seven wrong guesses allowed. */
  method MixedGuessesOnHello() returns (counts: seq<nat>, patterns: seq<string>, left: int)
    ensures counts == [0, 0, 0, 2, 0, 1]
    ensures patterns == ["- - - - -", "- - - - -", "- - - - -", "- - l l -", "- - l l -", "- e l l -"]
    ensures left == 3
  {
    var guesses := ['r', 's', 't', 'l', 'n', 'e'];
    MixedGuessesMisses();
    assert guesses[..5] == ['r', 's', 't', 'l', 'n'];
    var letters;
    counts, patterns, left, letters := PlaySingleWord("hello", guesses, 7);
    MixedGuessesLetters(guesses);
    MixedGuessesPatterns();
    MixedGuessesCounts();
    SixElements(counts, 0, 0, 0, 2, 0, 1);
    SixElements(patterns, "- - - - -", "- - - - -", "- - - - -", "- - l l -", "- - l l -", "- e l l -");
  }
  /** A sequence of four elements, given element by element. */
  lemma FourElements<T>(s: seq<T>, a: T, b: T, c: T, d: T)
    requires |s| == 4
    requires s[0] == a && s[1] == b && s[2] == c && s[3] == d
    ensures s == [a, b, c, d]
  {
  }

  /** The letters guessed after each of h, e, l, o. */
  lemma CorrectGuessesLetters(guesses: seq<char>)
    requires guesses == ['h', 'e', 'l', 'o']
    ensures Letters(guesses[..1]) == {'h'}
    ensures Letters(guesses[..2]) == {'h', 'e'}
    ensures Letters(guesses[..3]) == {'h', 'e', 'l'}
    ensures Letters(guesses[..4]) == {'h', 'e', 'l', 'o'}
  {
    assert guesses[..1] == ['h'] && guesses[..2] == ['h', 'e'] && guesses[..3] == ['h', 'e', 'l'];
    assert guesses[..4] == guesses;
  }

  /** The patterns shown after each of h, e, l, o against "hello". */
  lemma CorrectGuessesPatterns()
    ensures PatternOf("hello", {'h'}) == "h - - - -"
    ensures PatternOf("hello", {'h', 'e'}) == "h e - - -"
    ensures PatternOf("hello", {'h', 'e', 'l'}) == "h e l l -"
    ensures PatternOf("hello", {'h', 'e', 'l', 'o'}) == "h e l l o"
  {
    HelloPattern({'h'});
    HelloPattern({'h', 'e'});
    HelloPattern({'h', 'e', 'l'});
    HelloPattern({'h', 'e', 'l', 'o'});
  }

  /** How often each of h, e, l, o occurs in "hello". */
  lemma CorrectGuessesCounts()
    ensures Count("hello", 'h') == 1 && Count("hello", 'e') == 1
    ensures Count("hello", 'l') == 2 && Count("hello", 'o') == 1
  {
  }

  /** None of h, e, l, o misses "hello". */
  lemma CorrectGuessesMisses()
    ensures Misses("hello", ['h', 'e', 'l']) == 0
    ensures Misses("hello", ['h', 'e', 'l', 'o']) == 0
  {
    assert ['h', 'e'][..1] == ['h'];
    assert ['h', 'e', 'l'][..2] == ['h', 'e'];
    assert ['h', 'e', 'l', 'o'][..3] == ['h', 'e', 'l'];
  }

  /** Guesses h, e, l, o against "hello" with seven wrong guesses allowed:
      every guess reveals letters, so no guess is lost. */
  method CorrectGuessesOnHello() returns (counts: seq<nat>, patterns: seq<string>, left: int)
    ensures counts == [1, 1, 2, 1]
    ensures patterns == ["h - - - -", "h e - - -", "h e l l -", "h e l l o"]
    ensures left == 7
  {
    var guesses := ['h', 'e', 'l', 'o'];
    CorrectGuessesMisses();
    assert guesses[..3] == ['h', 'e', 'l'];
    var letters;
    counts, patterns, left, letters := PlaySingleWord("hello", guesses, 7);
    CorrectGuessesLetters(guesses);
    CorrectGuessesPatterns();
    CorrectGuessesCounts();
    FourElements(counts, 1, 1, 2, 1);
    FourElements(patterns, "h - - - -", "h e - - -", "h e l l -", "h e l l o");
  }
}
