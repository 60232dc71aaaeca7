/** Worked inputs: what parse_roman_number returns on particular lines. */
module Examples {
  import opened Tokens
  import opened Results
  import opened Parser
  import opened Canonical

  /** Well-formed numerals, with and without the trailing newline of a line read by fgets. */
  lemma AcceptedYear()
    ensures Parse("MCMXCIV") == Success(1994)
  {
  }

  lemma AcceptedLargestStandard()
    ensures Parse("MMMCMXCIX") == Success(3999)
  {
    StandardNumerals();
    ParseToRoman(3999);
  }

  lemma AcceptedSmall()
    ensures Parse("XLII") == Success(42)
  {
  }

  lemma AcceptedLine()
    ensures Parse("XLII\n") == Success(42)
  {
  }

  /** M repeats without limit, so there is no largest accepted number. */
  lemma AcceptedManyThousands()
    ensures Parse("MMMMM") == Success(5000)
  {
  }

  /** An empty string is empty input; a bare newline reaches the tokenizer, which reports the
      end of input. */
  lemma EmptyLines()
    ensures Parse("") == Failure(EmptyInput)
    ensures Parse("\n") == Failure(EndOfInput)
  {
  }

  /** Runs that are too long. */
  lemma RepeatErrors()
    ensures Parse("IIII") == Failure(TooManyRepeats('I', 4))
    ensures Parse("VV") == Failure(TooManyRepeats('V', 2))
    ensures Parse("LL") == Failure(TooManyRepeats('L', 2))
  {
  }

  /** Pairs that are not subtractive numerals. */
  lemma PairErrors()
    ensures Parse("XM") == Failure(InvalidPair('X', 'M'))
    ensures Parse("IC") == Failure(InvalidPair('I', 'C'))
    ensures Parse("VX") == Failure(InvalidPair('V', 'X'))
  {
  }

  /** Tokens out of order: IV then I, V then IV, II then X (a run of I may not be followed by a
      larger digit), and IV then IV. */
  lemma SequenceErrors()
    ensures Parse("IVI") == Failure(InvalidSequence(Pair(1, 5), Repeat(1, 1)))
    ensures Parse("VIV") == Failure(InvalidSequence(Repeat(5, 1), Pair(1, 5)))
    ensures Parse("IIX") == Failure(InvalidSequence(Repeat(1, 2), Repeat(10, 1)))
    ensures Parse("IVIV") == Failure(InvalidSequence(Pair(1, 5), Pair(1, 5)))
  {
  }

  /** A character that is not a numeral: when it is the second character of a token, the
      error names the first one. A run that is already too long is reported first. */
  lemma CharacterErrors()
    ensures Parse("Z") == Failure(InvalidCharacter('Z'))
    ensures Parse("IZ") == Failure(InvalidCharacter('I'))
    ensures Parse("VIZ") == Failure(InvalidCharacter('I'))
    ensures Parse("XZ") == Failure(InvalidCharacter('X'))
    ensures Parse("IIIIZ") == Failure(TooManyRepeats('I', 4))
    ensures Parse("ii") == Failure(InvalidCharacter('i'))
  {
  }

  /** Standard numerals written by ToRoman, place by place. */
  lemma StandardNumerals()
    ensures ToRoman(3999) == "MMMCMXCIX"
  {
    assert seq(3, _ => 'M') == "MMM";
    assert Group(9, 'C', 'D', 'M') == "CM";
    assert Group(9, 'X', 'L', 'C') == "XC";
    assert Group(9, 'I', 'V', 'X') == "IX";
  }

  lemma StandardYear()
    ensures ToRoman(1994) == "MCMXCIV"
  {
    assert seq(1, _ => 'M') == "M";
    assert Group(9, 'C', 'D', 'M') == "CM";
    assert Group(9, 'X', 'L', 'C') == "XC";
    assert Group(4, 'I', 'V', 'X') == "IV";
  }
}
