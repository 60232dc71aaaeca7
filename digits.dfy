/** The seven Roman digits: the character-to-value table of parse_roman_character and its
    inverse digit_to_roman. */
module Digits {

  datatype Option<+T> = None | Some(value: T)

  /** The values a single numeral character stands for. */
  predicate IsDigit(v: int) {
    v == 1 || v == 5 || v == 10 || v == 50 || v == 100 || v == 500 || v == 1000
  }

  /** The "half" digits V, L and D, which never repeat and get the stricter ordering rule. */
  predicate IsHalfDigit(v: int) {
    v == 5 || v == 50 || v == 500
  }

  /** The value of a numeral character; None for every character other than I V X L C D M.
      The contract says that the result is the digit whose character is c. */
  function CharValue(c: char): (r: Option<int>)
    ensures r.Some? ==> IsDigit(r.value) && DigitToRoman(r.value) == c
    ensures r.None? ==> forall v :: IsDigit(v) ==> DigitToRoman(v) != c
  {
    match c
    case 'I' => Some(1)
    case 'V' => Some(5)
    case 'X' => Some(10)
    case 'L' => Some(50)
    case 'C' => Some(100)
    case 'D' => Some(500)
    case 'M' => Some(1000)
    case _ => None
  }

  /** The character of a digit value; '?' for any integer that is not a digit value. */
  function DigitToRoman(d: int): (c: char)
    ensures IsDigit(d) <==> c != '?'
  {
    if d == 1 then 'I'
    else if d == 5 then 'V'
    else if d == 10 then 'X'
    else if d == 50 then 'L'
    else if d == 100 then 'C'
    else if d == 500 then 'D'
    else if d == 1000 then 'M'
    else '?'
  }

  /** parse_roman_character writes the value through its out-pointer only on success; `current`
      is what the pointee held before the call. */
  method ParseRomanCharacter(c: char, current: int) returns (ok: bool, out: int)
    ensures ok <==> c in "IVXLCDM"
    ensures ok ==> IsDigit(out) && DigitToRoman(out) == c
    ensures !ok ==> out == current
  {
    ok, out := true, current;
    match c {
      case 'I' => out := 1;
      case 'V' => out := 5;
      case 'X' => out := 10;
      case 'L' => out := 50;
      case 'C' => out := 100;
      case 'D' => out := 500;
      case 'M' => out := 1000;
      case _ => ok := false;
    }
  }

  /** digit_to_roman undoes parse_roman_character on the seven digit values. */
  lemma DigitRoundTrip(d: int)
    requires IsDigit(d)
    ensures CharValue(DigitToRoman(d)) == Some(d)
  {
  }

  /** The numeral characters are exactly I V X L C D M. */
  lemma NumeralCharacters(c: char)
    ensures CharValue(c).Some? <==> c in "IVXLCDM"
  {
  }
}
