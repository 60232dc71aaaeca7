/** The outcome of the tokenizer and of the parser: a value, or the reason for rejecting the
    input. Each error carries what the source's message about it names. */
module Results {
  import opened Tokens

  datatype Err =
    | EmptyInput                               // the line holds no character at all
    | EndOfInput                               // the tokenizer was asked to read at a terminator
    | InvalidCharacter(c: char)                // a character that is not a numeral
    | InvalidPair(prefix: char, suffix: char)  // an ascending pair that is not canonical
    | TooManyRepeats(c: char, count: int)      // a run longer than the digit allows
    | InvalidSequence(prev: Token, next: Token) // a token that may not follow the previous one

  datatype Result<+T> = Success(value: T) | Failure(error: Err)
}
