# Hangman game state, normal and devious

This project models the game-state class `Hangman` of a Java hangman game in
its two variants, and proves what each promises.

- **Normal** (`normal/Hangman.java`). The first time the goal is needed, one
  dictionary word of the goal length is picked at random and fixed.
  `record(guess)` answers with the number of times the letter occurs in that
  word.
- **Devious** (`devious/Hangman.java`). No word is fixed. The game keeps
  every dictionary word of the goal length that is still consistent with the
  guesses. After each guess it groups these candidates into *families* by
  the pattern they would show. It keeps a largest family and answers for the
  smallest word of that family.

Both variants:
- check their constructor arguments, in different orders;
- keep a wrong-guess budget `guessesLeft`, which a miss lowers by one;
- keep the guessed letters as a sorted set;
- show the *pattern*: one token per letter of the word, either the letter
  (once guessed) or `-`, tokens separated by single spaces.

Layout:
- `wrappers.dfy`: `Option` and `Result`.
- `errors.dfy`: the exceptions as data.
- `display.dfy`: patterns and letter counts, shared by both variants.
- `dictionary.dfy`: the length filter, Java's `String.compareTo` order, and
  the first element of a sorted set.
- `normal.dfy`: module `Normal` with its class `Hangman`, plus module
  `NormalScenarios` with the unit tests' single-word games.
- `devious.dfy`: module `Devious` with the family partition, the choice of a
  largest family, and its class `Hangman`.

How Java becomes Dafny:
- A Java exception becomes an `Err` value.
- The throwing constructor becomes `Create`. It runs `CheckArguments` and then
  the Dafny `constructor`.
- The lazily assigned `goalWords` field (null at first) becomes
  `Option<set<string>>`.
- The sorted letter set becomes a `set<char>`; `Guesses` lists it in
  ascending order.

The unit-test scenario with guesses r, s, t, l, n, e against "hello" and a
limit of 7 ends with 3 guesses left. Four of the six guesses (r, s, t, n)
count zero, so 7 - 4 = 3, which is the value the test computes as the limit
minus the number of zero counts (normal/HangmanTest.java:122-124).

## Model

| member | source | states |
|---|---|---|
| Display.Reveal | normal/Hangman.java:266 | the token shown for a letter is the letter itself or `-`, and it is the letter exactly when the letter was guessed (or is `-` itself) |
| Display.Mask | normal/Hangman.java:264-266 | position i of the mask is the letter at i when it was guessed and `-` otherwise; the mask is as long as the word |
| Display.Join | normal/Hangman.java:267 | n tokens joined give 2n-1 characters: tokens at even positions, a single space at odd ones |
| Display.PatternOf | normal/Hangman.java:260-268 | an n-letter word has a pattern of 2n-1 characters (0 for the empty word) |
| Display.Count | normal/Hangman.java:238-239 | the number of occurrences never exceeds the word's length |
| Display.CountZeroIff | normal/Hangman.java:238-243 | a guess counts zero (and so costs a guess) exactly when the word does not contain the letter |
| Display.JoinInjective | normal/Hangman.java:264-267 | joining loses nothing: equal joined strings come from equal token sequences |
| Display.SamePatternIff | devious/Hangman.java:249-257 | two words show the same pattern iff they have the same length and show the same token at every position |
| Display.CountThroughMask | devious/Hangman.java:227-228 | a guessed letter other than `-` occurs as often in the mask as in the word |
| Display.SamePatternSameCount | devious/Hangman.java:215-228 | words that show the same pattern contain a guessed letter other than `-` equally often |
| Display.PlaceholderGuessHidesCount | devious/Hangman.java:191-193 | once `-` itself is guessed, "--" and "ab" show the same pattern but contain `-` 2 and 0 times |
| Display.SameLengthSameBlankPattern | normal/HangmanTest.java:211-219 | before any guess, all words of one length show the same all-dash pattern |
| Dictionary.OfLength | normal/Hangman.java:133-136 | the filtered list keeps exactly the dictionary words of length n; it is empty iff no word has length n |
| Dictionary.WordsOfLengthSize | devious/Hangman.java:121-123 | collecting the filtered words into a set gives no more words than the list, and an empty set only for an empty list |
| Dictionary.WordsOfLengthCons | devious/Hangman.java:121-123 | the set of a list is its head (when of length n) together with the set of the rest |
| Dictionary.WordsOfLength | devious/Hangman.java:121-123 | the collected set holds exactly the dictionary words of length n |
| Dictionary.LexLe | devious/Hangman.java:266-268 | `compareTo` order: a comes no later than b exactly when a is a prefix of b or, at the first position where they differ, a has the smaller character |
| Dictionary.LexLeReflexive | normal/Hangman.java:279-281 | every string comes no later than itself in `compareTo` order |
| Dictionary.LexLeTotal | normal/Hangman.java:279-281 | any two strings are ordered one way or the other |
| Dictionary.LexLeTransitive | normal/Hangman.java:279-281 | the order is transitive |
| Dictionary.LexLeAntisymmetric | normal/Hangman.java:279-281 | strings ordered both ways are equal |
| Dictionary.LeastExists | normal/Hangman.java:279-281 | every non-empty set of strings has a first element |
| Dictionary.LeastUnique | normal/Hangman.java:279-281 | that first element is unique |
| Dictionary.Least | normal/Hangman.java:279-281 | the first element of a non-empty sorted set belongs to it and comes no later than any member |
| Dictionary.FirstWord | normal/Hangman.java:279-281 | "" for an empty set, otherwise a member no later than any other |
| Dictionary.LeastLetterExists | normal/Hangman.java:55 | every non-empty letter set has a smallest letter |
| Dictionary.LeastLetter | normal/Hangman.java:55 | the smallest letter belongs to the set and is no larger than any member |
| Dictionary.SortedLetters | normal/Hangman.java:180-182 | the listing has one entry per letter of the set |
| Dictionary.SortedLettersMembers | normal/Hangman.java:180-182 | the listing holds exactly the letters of the set |
| Dictionary.SortedLettersAscending | normal/Hangman.java:180-182 | the listing is strictly ascending, so no letter appears twice |
| Normal.CheckArguments | normal/Hangman.java:84-102 | the arguments pass iff length >= 1, limit >= 1 and some word has the length; otherwise the error is the first failing check, in the order length, limit, empty dictionary, no word of the length |
| Normal.Hangman.constructor | normal/Hangman.java:104-107 | a new game holds the arguments, the whole budget, no guesses and no goal yet |
| Normal.Hangman.Create | normal/Hangman.java:81-108 | fails with exactly the first failing check; otherwise a valid new game with guessesLeft == wrongGuessLimit and no guesses |
| Normal.Hangman.Words | normal/Hangman.java:126-148 | the goal set has at most one word, a dictionary word of the goal length; it is empty only if no word has that length; once set it never changes |
| Normal.Hangman.WrongGuessLimit | normal/Hangman.java:157-160 | the limit is at least 1 |
| Normal.Hangman.GuessesLeft | normal/Hangman.java:170-172 | the budget stays between 0 and the limit |
| Normal.Hangman.Guesses | normal/Hangman.java:180-182 | exactly the guessed letters, strictly ascending |
| Normal.Hangman.FirstGoalWord | normal/Hangman.java:279-281 | "" when there is no goal word, otherwise the goal set is exactly that word |
| Normal.Hangman.Pattern | normal/Hangman.java:194-207 | the pattern of the goal word under the guesses so far, "" when there is no goal word; the goal is not changed |
| Normal.Hangman.Record | normal/Hangman.java:222-246 | the three errors, in order, each iff its condition, with the guesses and the budget unchanged; on success the letter joins the guesses, the answer is its count in the goal word, and the budget drops by one exactly on a zero count; no NoGoalWord error when the dictionary has a word of the goal length |
| Normal.Misses | normal/HangmanTest.java:122-123 | the number of missed guesses is at most the number of guesses |
| Normal.MissesOfPrefix | normal/HangmanTest.java:122-123 | a prefix of the guesses never has more misses |
| Normal.PrefixStep | normal/HangmanTest.java:116-120 | a distinct next guess is new to the letters so far, adds exactly itself to them, and adds one miss exactly when it counts zero |
| Normal.GuessAndShow | normal/HangmanTest.java:117-119 | one round on a one-word game: the count of the letter in the word, the pattern under the letters so far, and a budget lowered only by a miss |
| Normal.PlayRounds | normal/HangmanTest.java:116-120 | after the rounds, each answer is the letter's count in the word, each pattern shows the word under the guesses so far, and the budget is the limit minus the misses |
| Normal.PlaySingleWord | normal/HangmanTest.java:107-127 | on the dictionary [word], distinct guesses get their counts and patterns, the budget ends at limit minus the zero counts, and guesses() holds every letter played |
| NormalScenarios.HelloPattern | normal/HangmanTest.java:243-247 | the pattern of "hello" token by token under any guesses |
| NormalScenarios.MixedGuessesMisses | normal/HangmanTest.java:263-268 | r, s, t, l, n, e miss "hello" 1, 2, 3, 3, 4, 4 times cumulatively |
| NormalScenarios.MixedGuessesCounts | normal/HangmanTest.java:268 | r, s, t, l, n, e occur 0, 0, 0, 2, 0, 1 times in "hello" |
| NormalScenarios.MixedGuessesLetters | normal/HangmanTest.java:263 | the letter sets after each of r, s, t, l, n, e |
| NormalScenarios.MixedGuessesPatterns | normal/HangmanTest.java:264-267 | the patterns of "hello" after each of r, s, t, l, n, e |
| NormalScenarios.MixedGuessesOnHello | normal/HangmanTest.java:261-272 | counts 0,0,0,2,0,1, patterns "- - - - -" three times, "- - l l -" twice, "- e l l -", and 3 guesses left of 7 |
| NormalScenarios.CorrectGuessesLetters | normal/HangmanTest.java:245 | the letter sets after each of h, e, l, o |
| NormalScenarios.CorrectGuessesPatterns | normal/HangmanTest.java:246-247 | the patterns of "hello" after each of h, e, l, o |
| NormalScenarios.CorrectGuessesCounts | normal/HangmanTest.java:248 | h, e, l, o occur 1, 1, 2, 1 times in "hello" |
| NormalScenarios.CorrectGuessesMisses | normal/HangmanTest.java:243-252 | none of h, e, l, o misses "hello" |
| NormalScenarios.CorrectGuessesOnHello | normal/HangmanTest.java:243-252 | counts 1,1,2,1, patterns "h - - - -", "h e - - -", "h e l l -", "h e l l o", and all 7 guesses left |
| Devious.CheckArguments | devious/Hangman.java:82-100 | the same acceptance condition as the normal variant, but the empty dictionary is reported first |
| Devious.FamiliesPartition | devious/Hangman.java:213-221 | the families partition the candidates: each candidate is in the family of its own pattern, each family is a non-empty set of candidates showing its pattern, and distinct families are disjoint |
| Devious.FamiliesAddWord | devious/Hangman.java:216-220 | grouping one more word adds it to its pattern's family (created if new) and leaves every other family unchanged |
| Devious.WordFamilies | devious/Hangman.java:213-221 | the loop's map is exactly the map from each pattern the candidates show to the candidates showing it |
| Devious.LargestFamily | devious/Hangman.java:223-225 | the empty set when there are no families, otherwise one of the families, no smaller than any other |
| Devious.Narrow | devious/Hangman.java:213-225 | the kept set is a whole non-empty family of the candidates whose words all show one pattern, no family is larger, and it is no larger than the candidates |
| Devious.SharedCount | devious/Hangman.java:215-228 | every word of a one-pattern set contains a guessed letter other than `-` as often as its smallest word does |
| Devious.KeptFamily | devious/Hangman.java:223-225 | a family picked as largest from non-empty candidates is non-empty, a subset of them, one-patterned, the whole family of its own pattern, and as large as any family |
| Devious.Hangman.constructor | devious/Hangman.java:102-105 | a new game holds the arguments, the whole budget, no guesses and no cached candidates, and is valid: all its would-be candidates show the blank pattern |
| Devious.Hangman.Create | devious/Hangman.java:79-106 | fails with exactly the first failing check in this variant's order; otherwise a valid new game |
| Devious.Hangman.Words | devious/Hangman.java:116-125 | the first call caches exactly the dictionary words of the goal length, duplicates collapsed; later calls return the cache |
| Devious.Hangman.WrongGuessLimit | devious/Hangman.java:134-137 | the limit is at least 1 |
| Devious.Hangman.GuessesLeft | devious/Hangman.java:147-149 | the budget stays between 0 and the limit |
| Devious.Hangman.Guesses | devious/Hangman.java:157-159 | exactly the guessed letters, strictly ascending |
| Devious.Hangman.FirstGoalWord | devious/Hangman.java:266-268 | "" when there is no candidate, otherwise a candidate, and the smallest one once a guess has been recorded |
| Devious.Hangman.Pattern | devious/Hangman.java:171-184 | a pattern that every candidate shows under the guesses so far, "" when there is none; the candidates are not changed |
| Devious.Hangman.Record | devious/Hangman.java:198-235 | the three errors, in order, each iff its condition, with nothing changed; on success the letter joins the guesses, the candidates shrink to a non-empty whole family under the new guesses that is as large as any family, the answer is the count in the smallest survivor and the same in every survivor, and a zero count costs one guess |
| Devious.Hangman.Commit | devious/Hangman.java:211-234 | the state change of a successful record, as stated for Record |

## Left out

- The random pick of the normal goal word (normal/Hangman.java:141-142) is a nondeterministic choice among the words of the goal length; its distribution is not modelled.
- Devious.LargestFamily: which of several equally large families is kept depends on hash-map iteration order (devious/Hangman.java:213, 223-224); the contract only says the kept family is a largest one.
- Devious.Hangman.FirstGoalWord: before the first successful record, the cached candidates come from a hash set whose first element is unspecified, so any candidate may be returned. After that, the cache is a sorted family and the smallest candidate is returned. The model tells the two states apart by whether any letter has been guessed.
- Devious.Hangman.Record: the answer is the same for every survivor only when the guess is not `-` itself. Nothing stops a caller from guessing `-`, and then "--" and "ab" share a pattern with different counts (Display.PlaceholderGuessHidesCount).
- The stack trace that `pattern()` prints when there is no goal word is logging only, and it is not modelled. The pattern returned in that case ("") is modelled.
- The read-only wrapper around `guesses()` is not modelled: `Guesses` returns the letters themselves.
- The constructor keeps a reference to the caller's dictionary list. Changes the caller makes to that list afterwards are not modelled; the dictionary is a constant snapshot.
- `words()` returns the cached set itself (normal/Hangman.java:130,147; devious/Hangman.java:118,124), so a caller that changes it changes the game, for instance what `getFirstGoalWord` returns. The model's `Words` returns a value, and this aliasing is not modelled.
- The documented "lower-case letter" precondition of `record` is not enforced by the code, and the model does not enforce it either.
- Java `int` overflow is not modelled. It cannot occur: `guessesLeft` is lowered only while positive, and a count is at most a word's length.
- Java strings are sequences of UTF-16 code units; here a `char` is a Unicode scalar value. A character outside the Basic Multilingual Plane is one `char` here but two units in Java, so `length()` (normal/Hangman.java:98,135; devious/Hangman.java:96,122) counts it differently, and `LexLe` orders it above U+E000..U+FFFF where `compareTo` orders its surrogate units below them. The model is exact for text within the Basic Multilingual Plane.
- The `HangmanManager` interface, any console driver, and the unit tests' loading of dictionary files are not part of this model.
