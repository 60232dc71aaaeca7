/** consume_next_token: reads one token from the front of the remaining input. */
module Tokenizer {
  import opened Digits
  import opened Tokens
  import opened Rules
  import opened Results

  /** What a successful call yields: the token and the number of characters it consumed. */
  datatype Scanned = Scanned(token: Token, consumed: nat)

  /** The character at position i of the C string held in s; past the end of s it reads NUL. */
  function At(s: seq<char>, i: nat): char {
    if i < |s| then s[i] else '\0'
  }

  /** The characters that end the line: NUL and newline. */
  predicate IsEnd(c: char) {
    c == '\0' || c == '\n'
  }

  /** The length of the run of c that starts at position i: the maximal number of consecutive
      copies of c there. */
  function RunLength(s: seq<char>, i: nat, c: char): (n: nat)
    requires c != '\0'
    ensures n > 0 ==> i + n <= |s|
    ensures forall k :: i <= k < i + n ==> At(s, k) == c
    ensures At(s, i + n) != c
    decreases |s| - i
  {
    if At(s, i) == c then 1 + RunLength(s, i + 1, c) else 0
  }

  /** The token at position i as consume_next_token computes it. An invalid second character is
      reported with the FIRST character, as the source does. */
  function NextToken(s: seq<char>, i: nat): (r: Result<Scanned>)
    ensures r.Success? ==> 1 <= r.value.consumed && i + r.value.consumed <= |s|
  {
    var c0 := At(s, i);
    if IsEnd(c0) then Failure(EndOfInput)
    else match CharValue(c0)
      case None => Failure(InvalidCharacter(c0))
      case Some(first) =>
        var c1 := At(s, i + 1);
        if IsEnd(c1) then Success(Scanned(Repeat(first, 1), 1))
        else match CharValue(c1)
          case None => Failure(InvalidCharacter(c0))
          case Some(second) =>
            if first < second then
              if ValidPair(first, second) then Success(Scanned(Pair(first, second), 2))
              else Failure(InvalidPair(c0, c1))
            else if first > second then Success(Scanned(Repeat(first, 1), 1))
            else
              var n := RunLength(s, i, c0);
              if ValidRepeats(first, n) then Success(Scanned(Repeat(first, n), n))
              else Failure(TooManyRepeats(c0, n))
  }

  /** consume_next_token, reading the string character by character; the run of equal
      characters is scanned by a loop. */
  method ConsumeNextToken(s: seq<char>, i: nat) returns (r: Result<Scanned>)
    ensures r == NextToken(s, i)
  {
    var c0 := At(s, i);
    if IsEnd(c0) {
      return Failure(EndOfInput);
    }
    var ok, first := ParseRomanCharacter(c0, 0);
    if !ok {
      return Failure(InvalidCharacter(c0));
    }
    DigitRoundTrip(first);
    var c1 := At(s, i + 1);
    if IsEnd(c1) {
      return Success(Scanned(Repeat(first, 1), 1));
    }
    var second;
    ok, second := ParseRomanCharacter(c1, 0);
    if !ok {
      return Failure(InvalidCharacter(c0));
    }
    DigitRoundTrip(second);
    if first < second {
      if !ValidPair(first, second) {
        return Failure(InvalidPair(c0, c1));
      }
      return Success(Scanned(Pair(first, second), 2));
    }
    if first > second {
      return Success(Scanned(Repeat(first, 1), 1));
    }
    // equal values mean equal characters: a run, which continues while the character repeats
    assert c1 == c0 && RunLength(s, i, c0) == 2 + RunLength(s, i + 2, c0);
    var j := i + 2;
    while At(s, j) == c0
      invariant i + 2 <= j <= |s|
      invariant RunLength(s, i, c0) == (j - i) + RunLength(s, j, c0)
      decreases |s| - j
    {
      j := j + 1;
    }
    var n := j - i;
    if !ValidRepeats(first, n) {
      return Failure(TooManyRepeats(c0, n));
    }
    return Success(Scanned(Repeat(first, n), n));
  }

  /** A successful call consumes only numeral characters and yields a well-formed token: a
      pair takes two characters and ascends, a run is the maximal run at position i. */
  lemma ScanShape(s: seq<char>, i: nat)
    requires NextToken(s, i).Success?
    ensures var Scanned(t, n) := NextToken(s, i).value;
      && WellFormed(t)
      && (forall k :: i <= k < i + n ==> !IsEnd(s[k]) && CharValue(s[k]).Some?)
      && CharValue(s[i]) == Some(Lead(t))
      && (t.Pair? ==> n == 2 && t.prefix < t.suffix && CharValue(s[i + 1]) == Some(t.suffix))
      && (t.Repeat? ==> t.count == n && n == RunLength(s, i, s[i]))
  {
    var c0 := s[i];
    var first := CharValue(c0).value;
    var Scanned(t, n) := NextToken(s, i).value;
    if t.Repeat? && n == 1 {
      assert RunLength(s, i + 1, c0) == 0 by {
        if i + 1 < |s| && !IsEnd(s[i + 1]) {
          assert CharValue(s[i + 1]).value < first;
        }
      }
    } else if t.Repeat? {
      forall k | i <= k < i + n ensures !IsEnd(s[k]) && CharValue(s[k]).Some? {
        assert At(s, k) == c0;
      }
    }
  }

  /** A token never spans a terminator. */
  lemma ScanBefore(s: seq<char>, i: nat, k: nat)
    requires i <= k && IsEnd(At(s, k)) && NextToken(s, i).Success?
    ensures i + NextToken(s, i).value.consumed <= k
  {
    ScanShape(s, i);
    var n := NextToken(s, i).value.consumed;
    assert forall j :: i <= j < i + n ==> !IsEnd(At(s, j));
  }

  /** Round trip: the characters sprint_token writes for a scanned token are exactly the
      characters that were consumed. */
  lemma ScanRendersInput(s: seq<char>, i: nat)
    requires NextToken(s, i).Success?
    ensures var Scanned(t, n) := NextToken(s, i).value;
      Render(t) == s[i..i + n]
  {
    ScanShape(s, i);
    var Scanned(t, n) := NextToken(s, i).value;
    if t.Repeat? {
      forall k | 0 <= k < n ensures Render(t)[k] == s[i..i + n][k] {
        assert At(s, i + k) == s[i];
      }
    }
  }

  /** The error cases, each with the condition that raises it; the tokenizer reports no other
      errors. In particular an invalid character is always reported as the character at
      position i, even when the second character is the bad one. */
  lemma ScanFailures(s: seq<char>, i: nat)
    ensures NextToken(s, i) == Failure(EndOfInput) <==> IsEnd(At(s, i))
    ensures NextToken(s, i).Failure? && NextToken(s, i).error.InvalidCharacter? <==>
      !IsEnd(At(s, i)) &&
      (CharValue(At(s, i)).None? || (!IsEnd(At(s, i + 1)) && CharValue(At(s, i + 1)).None?))
    ensures NextToken(s, i).Failure? && NextToken(s, i).error.InvalidCharacter? ==>
      NextToken(s, i).error.c == At(s, i)
    ensures forall a, b :: NextToken(s, i) == Failure(InvalidPair(a, b)) <==>
      a == At(s, i) && b == At(s, i + 1) && CharValue(a).Some? && CharValue(b).Some? &&
      CharValue(a).value < CharValue(b).value && !ValidPair(CharValue(a).value, CharValue(b).value)
    ensures forall c, n :: NextToken(s, i) == Failure(TooManyRepeats(c, n)) <==>
      c == At(s, i) && CharValue(c).Some? && At(s, i + 1) == c &&
      n == RunLength(s, i, c) && !ValidRepeats(CharValue(c).value, n)
  {
  }

  /** The tokenizer never reports an empty input or a sequence error. */
  lemma ScanErrorKinds(s: seq<char>, i: nat)
    ensures NextToken(s, i).Failure? ==>
      !NextToken(s, i).error.EmptyInput? && !NextToken(s, i).error.InvalidSequence?
  {
  }

  lemma {:induction false} RunLengthLocal(s: seq<char>, s': seq<char>, i: nat, k: nat, c: char)
    requires !IsEnd(c) && i <= k
    requires forall j :: i <= j < k ==> At(s, j) == At(s', j)
    requires IsEnd(At(s, k)) && IsEnd(At(s', k))
    ensures RunLength(s, i, c) == RunLength(s', i, c)
    decreases k - i
  {
    if i < k && At(s, i) == c {
      RunLengthLocal(s, s', i + 1, k, c);
    }
  }

  /** The tokenizer never reads past a terminator: two inputs that agree up to a terminator
      (NUL or newline, not necessarily the same one) give the same result. */
  lemma ScanLocal(s: seq<char>, s': seq<char>, i: nat, k: nat)
    requires i <= k
    requires forall j :: i <= j < k ==> At(s, j) == At(s', j)
    requires IsEnd(At(s, k)) && IsEnd(At(s', k))
    ensures NextToken(s, i) == NextToken(s', i)
  {
    if i < k && !IsEnd(At(s, i)) {
      RunLengthLocal(s, s', i, k, At(s, i));
    }
  }

  lemma {:induction false} RunLengthShift(p: seq<char>, s: seq<char>, j: nat, c: char)
    requires c != '\0'
    ensures RunLength(p + s, |p| + j, c) == RunLength(s, j, c)
    decreases |s| - j
  {
    assert At(p + s, |p| + j) == At(s, j);
    if At(s, j) == c {
      RunLengthShift(p, s, j + 1, c);
    }
  }

  /** What the tokenizer reads at a position depends only on the characters from there on. */
  lemma ScanShift(p: seq<char>, s: seq<char>, j: nat)
    ensures NextToken(p + s, |p| + j) == NextToken(s, j)
  {
    assert At(p + s, |p| + j) == At(s, j);
    assert At(p + s, |p| + j + 1) == At(s, j + 1);
    if !IsEnd(At(s, j)) {
      RunLengthShift(p, s, j, At(s, j));
    }
  }

  lemma {:induction false} RunOfRendered(t: Token, rest: seq<char>, j: nat)
    requires t.Repeat? && IsDigit(t.digit) && j <= t.count
    requires rest == [] || rest[0] != DigitToRoman(t.digit)
    ensures RunLength(Render(t) + rest, j, DigitToRoman(t.digit)) == t.count - j
    decreases t.count - j
  {
    var s := Render(t) + rest;
    if j < t.count {
      assert At(s, j) == DigitToRoman(t.digit);
      RunOfRendered(t, rest, j + 1);
    } else {
      assert rest != [] ==> At(s, j) == rest[0];
    }
  }

  /** Round trip the other way: scanning the rendering of a well-formed token gives the token
      back, whatever follows it, provided a run is followed by nothing or by a smaller digit. */
  lemma ScanRendered(t: Token, rest: seq<char>)
    requires WellFormed(t)
    requires t.Repeat? && rest != [] ==> CharValue(rest[0]).Some? && CharValue(rest[0]).value < t.digit
    ensures NextToken(Render(t) + rest, 0) == Success(Scanned(t, |Render(t)|))
  {
    WellFormedToken(t);
    var s := Render(t) + rest;
    match t {
      case Pair(p, q) =>
        assert At(s, 0) == DigitToRoman(p) && At(s, 1) == DigitToRoman(q);
        DigitRoundTrip(p);
        DigitRoundTrip(q);
      case Repeat(d, n) =>
        DigitRoundTrip(d);
        assert At(s, 0) == DigitToRoman(d);
        if n == 1 {
          assert rest != [] ==> At(s, 1) == rest[0];
        } else {
          assert At(s, 1) == DigitToRoman(d);
          RunOfRendered(t, rest, 0);
        }
    }
  }
}
