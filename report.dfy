/** The message of a sequence error: parse_roman_number prints both offending tokens through
    two character buffers filled by sprint_token. */
module Report {
  import opened Digits
  import opened Tokens
  import opened Rules
  import opened Results
  import opened Tokenizer
  import opened Parser

  /** The size of each buffer the sequence-error branch declares. */
  const BufferSize: int := 32

  /** What a buffer of len characters holds once sprint_token has run on it: the token's
      characters when they fit, None when sprint_token left it unwritten. The source ignores
      the result and prints the buffer anyway; an unwritten local array holds indeterminate
      characters, so None stands for text the program does not determine. */
  function Formatted(len: int, t: Token): (r: Option<string>)
    ensures r.Some? <==> SprintFits(len, t)
    ensures r.Some? ==> r.value == Render(t) && |r.value| < len
  {
    if SprintFits(len, t) then Some(Render(t)) else None
  }

  /** The sequence-error branch as written: both tokens go through buffers of BufferSize
      characters, whatever their length. */
  method ReportAsWritten(prev: Token, next: Token) returns (first: Option<string>, second: Option<string>)
    ensures first == Formatted(BufferSize, prev)
    ensures second == Formatted(BufferSize, next)
  {
    var buff1 := new char[BufferSize];
    var buff2 := new char[BufferSize];
    var ok1 := SprintToken(buff1, BufferSize, prev);
    var ok2 := SprintToken(buff2, BufferSize, next);
    first := if ok1 then Some(buff1[..|Render(prev)|]) else None;
    second := if ok2 then Some(buff2[..|Render(next)|]) else None;
  }

  /** A run of M after CM is a sequence error whose second token is the whole run, however
      long: so for every buffer size some rejected line holds a token that does not fit. */
  lemma LongRunAfterPair(k: nat)
    requires k >= 1
    ensures Parse("CM" + seq(k, _ => 'M')) == Failure(InvalidSequence(Pair(100, 1000), Repeat(1000, k)))
    ensures forall len :: len <= k ==> Formatted(len, Repeat(1000, k)).None?
  {
    var ms := seq(k, _ => 'M');
    var s := "CM" + ms;
    var t := Repeat(1000, k);
    assert Render(t) == ms;
    assert Render(t) + [] == ms;
    assert s[0] == 'C' && s[1] == 'M';
    assert NextToken(s, 0) == Success(Scanned(Pair(100, 1000), 2));
    assert At(s, 2) == 'M';
    ScanShift("CM", ms, 0);
    ScanRendered(t, []);
    assert NextToken(s, 2) == Success(Scanned(t, k));
  }

  /** The input of the finding: CM followed by 32 M is rejected, and the message then prints
      a buffer sprint_token never wrote. */
  lemma UnwrittenBuffer()
    ensures Parse("CM" + seq(32, _ => 'M')) == Failure(InvalidSequence(Pair(100, 1000), Repeat(1000, 32)))
    ensures Formatted(BufferSize, Repeat(1000, 32)).None?
  {
    LongRunAfterPair(32);
  }

  /** The comment on sprint_token says four characters fit any token: they fit every
      well-formed token except a run of four or more M. */
  lemma FourCharacters(t: Token)
    requires WellFormed(t)
    ensures SprintFits(4, t) <==> !(t.Repeat? && t.digit == 1000 && t.count >= 4)
  {
  }

  /** The sequence-error branch corrected: each buffer is sized to the token it receives, so
      both tokens are always written out. */
  method ReportSequenceError(prev: Token, next: Token) returns (first: string, second: string)
    ensures first == Render(prev) && second == Render(next)
  {
    var buff1 := new char[|Render(prev)| + 1];
    var buff2 := new char[|Render(next)| + 1];
    var ok1 := SprintToken(buff1, buff1.Length, prev);
    var ok2 := SprintToken(buff2, buff2.Length, next);
    first := buff1[..|Render(prev)|];
    second := buff2[..|Render(next)|];
  }

  /** With the corrected branch, the message of every sequence error quotes two pieces of
      text that stand next to each other in the rejected line. */
  lemma ReportQuotesLine(s: seq<char>, a: Token, b: Token)
    requires Parse(s) == Failure(InvalidSequence(a, b))
    ensures IsInfix(Render(a) + Render(b), Line(s))
    ensures Formatted(|Render(a)| + 1, a) == Some(Render(a))
    ensures Formatted(|Render(b)| + 1, b) == Some(Render(b))
  {
    var ts, m := ParseSequenceError(s, a, b);
  }
}
