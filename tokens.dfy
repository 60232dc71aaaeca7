/** The token tagged union, its value (token_value) and its rendering (sprint_token). */
module Tokens {
  import opened Digits

  /** A subtractive pair such as IV or CM, or a run of one digit such as III; a lone digit is
      a run of length one. */
  datatype Token = Pair(prefix: int, suffix: int) | Repeat(digit: int, count: nat)

  /** The value that orders a token against its neighbours: a pair's prefix, a run's digit. */
  function Lead(t: Token): int {
    match t
    case Pair(p, _) => p
    case Repeat(d, _) => d
  }

  /** The value a token ends on: a pair's suffix, a run's digit. */
  function Trail(t: Token): int {
    match t
    case Pair(_, s) => s
    case Repeat(d, _) => d
  }

  /** token_value: what a token adds to the total. */
  function TokenValue(t: Token): int {
    match t
    case Repeat(d, n) => d * n
    case Pair(p, s) => s - p
  }

  /** The characters sprint_token writes for a token, before the terminating NUL. */
  function Render(t: Token): (r: string)
    ensures |r| == if t.Pair? then 2 else t.count
    ensures t.Repeat? ==> forall k :: 0 <= k < |r| ==> r[k] == DigitToRoman(t.digit)
    ensures t.Pair? ==> r == [DigitToRoman(t.prefix), DigitToRoman(t.suffix)]
  {
    match t
    case Repeat(d, n) => seq(n, _ => DigitToRoman(d))
    case Pair(p, s) => [DigitToRoman(p), DigitToRoman(s)]
  }

  /** Whether a buffer of `len` characters holds the rendering and its terminating NUL. */
  predicate SprintFits(len: int, t: Token) {
    len >= |Render(t)| + 1
  }

  /** sprint_token: writes the token's characters and a NUL into the first `len` cells of buff,
      or reports false and writes nothing when they do not fit. */
  method SprintToken(buff: array<char>, len: int, t: Token) returns (ok: bool)
    requires len <= buff.Length
    modifies buff
    ensures ok == SprintFits(len, t)
    ensures ok ==> buff[..|Render(t)|] == Render(t) && buff[|Render(t)|] == '\0'
    ensures ok ==> forall k :: |Render(t)| < k < buff.Length ==> buff[k] == old(buff[k])
    ensures !ok ==> buff[..] == old(buff[..])
  {
    match t {
      case Repeat(d, n) =>
        if len < n + 1 {
          return false;
        }
        var ch := DigitToRoman(d);
        for i := 0 to n
          invariant forall k :: 0 <= k < i ==> buff[k] == ch
          invariant forall k :: i <= k < buff.Length ==> buff[k] == old(buff[k])
        {
          buff[i] := ch;
        }
        buff[n] := '\0';
        ok := true;
      case Pair(p, s) =>
        if len < 3 {
          return false;
        }
        buff[0] := DigitToRoman(p);
        buff[1] := DigitToRoman(s);
        buff[2] := '\0';
        ok := true;
    }
  }
}
