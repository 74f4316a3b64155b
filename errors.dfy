/** The exceptions the two Hangman variants throw, one constructor per
    distinct cause. */
module Errors {

  /** IllegalArgumentException thrown by the Hangman constructor. */
  datatype ConfigError =
    | EmptyDictionary     // the dictionary list has no entries
    | NonPositiveLength   // the goal length is below 1
    | NonPositiveLimit    // the wrong-guess limit is below 1
    | NoWordOfLength      // no dictionary word has the goal length

  /** Exceptions thrown by record(guess). */
  datatype GuessError =
    | NoGuessesLeft            // IllegalStateException: guessesLeft <= 0
    | NoGoalWord               // IllegalStateException: words() is empty
    | AlreadyGuessed(letter: char)  // IllegalArgumentException: repeated letter
}
