/** parse_roman_number: the driver that tokenizes the line, checks each token against the
    previous one and adds up the token values, failing on the first error. */
module Parser {
  import opened Digits
  import opened Tokens
  import opened Rules
  import opened Results
  import opened Tokenizer

  /** The outcome of parse_roman_number on the C string held in s. */
  function Parse(s: seq<char>): Result<int> {
    if At(s, 0) == '\0' then Failure(EmptyInput)
    else match NextToken(s, 0)
      case Failure(e) => Failure(e)
      case Success(first) => Drive(s, first.consumed, first.token, TokenValue(first.token))
  }

  /** The driver's loop from position i on, with the previous token and the total so far. */
  function Drive(s: seq<char>, i: nat, prev: Token, tally: int): Result<int>
    decreases |s| - i
  {
    if IsEnd(At(s, i)) then Success(tally)
    else match NextToken(s, i)
      case Failure(e) => Failure(e)
      case Success(next) =>
        if !ValidSequence(prev, next.token) then Failure(InvalidSequence(prev, next.token))
        else Drive(s, i + next.consumed, next.token, tally + TokenValue(next.token))
  }

  /** parse_roman_number: the first token seeds the total, then a loop reads the rest. */
  method ParseRomanNumber(s: seq<char>) returns (r: Result<int>)
    ensures r == Parse(s)
  {
    if At(s, 0) == '\0' {
      return Failure(EmptyInput);
    }
    var res := ConsumeNextToken(s, 0);
    if res.Failure? {
      return Failure(res.error);
    }
    var i := res.value.consumed;
    var prev := res.value.token;
    var tally := TokenValue(prev);
    while !IsEnd(At(s, i))
      invariant i <= |s|
      invariant Drive(s, i, prev, tally) == Parse(s)
      decreases |s| - i
    {
      res := ConsumeNextToken(s, i);
      if res.Failure? {
        return Failure(res.error);
      }
      var next := res.value.token;
      if !ValidSequence(prev, next) {
        return Failure(InvalidSequence(prev, next));
      }
      i := i + res.value.consumed;
      tally := tally + TokenValue(next);
      prev := next;
    }
    return Success(tally);
  }

  /** The tokens of the line from position i on, read one after the other until a terminator,
      or the first tokenizer error. */
  function Lex(s: seq<char>, i: nat): Result<seq<Token>>
    decreases |s| - i
  {
    if IsEnd(At(s, i)) then Success([])
    else match NextToken(s, i)
      case Failure(e) => Failure(e)
      case Success(sc) =>
        match Lex(s, i + sc.consumed)
        case Failure(e) => Failure(e)
        case Success(ts) => Success([sc.token] + ts)
  }

  /** Every token may follow the one before it. */
  predicate Chain(ts: seq<Token>) {
    forall k :: 0 <= k < |ts| - 1 ==> ValidSequence(ts[k], ts[k + 1])
  }

  predicate AllWellFormed(ts: seq<Token>) {
    forall k :: 0 <= k < |ts| ==> WellFormed(ts[k])
  }

  /** The sum of the token values. */
  function Sum(ts: seq<Token>): int {
    if ts == [] then 0 else TokenValue(ts[0]) + Sum(ts[1..])
  }

  /** The text sprint_token writes for the tokens, one after the other. */
  function RenderAll(ts: seq<Token>): string {
    if ts == [] then [] else Render(ts[0]) + RenderAll(ts[1..])
  }

  /** The line the parser reads: the characters before the first NUL or newline. */
  function Line(s: seq<char>): (l: string)
    ensures |l| <= |s| && l == s[..|l|]
    ensures forall j :: 0 <= j < |l| ==> !IsEnd(l[j])
    ensures IsEnd(At(s, |l|))
  {
    if s == [] || IsEnd(s[0]) then [] else [s[0]] + Line(s[1..])
  }

  lemma ChainCons(a: Token, ts: seq<Token>)
    ensures Chain([a] + ts) <==> (ts != [] ==> ValidSequence(a, ts[0])) && Chain(ts)
  {
    var xs := [a] + ts;
    if Chain(xs) {
      if ts != [] {
        assert xs[0] == a && xs[1] == ts[0];
      }
      forall k | 0 <= k < |ts| - 1 ensures ValidSequence(ts[k], ts[k + 1]) {
        assert xs[k + 1] == ts[k] && xs[k + 2] == ts[k + 1];
      }
    }
    if (ts != [] ==> ValidSequence(a, ts[0])) && Chain(ts) {
      forall k | 0 <= k < |xs| - 1 ensures ValidSequence(xs[k], xs[k + 1]) {
        if k > 0 {
          assert xs[k] == ts[k - 1] && xs[k + 1] == ts[k];
        } else {
          assert xs[1] == ts[0];
        }
      }
    }
  }

  lemma {:induction false} DriveSucceeds(s: seq<char>, i: nat, prev: Token, tally: int, v: int)
    ensures Drive(s, i, prev, tally) == Success(v) <==>
      Lex(s, i).Success? && Chain([prev] + Lex(s, i).value) && v == tally + Sum(Lex(s, i).value)
    decreases |s| - i
  {
    if !IsEnd(At(s, i)) && NextToken(s, i).Success? {
      var Scanned(t, n) := NextToken(s, i).value;
      DriveSucceeds(s, i + n, t, tally + TokenValue(t), v);
      if Lex(s, i + n).Success? {
        var ts := Lex(s, i + n).value;
        ChainCons(prev, [t] + ts);
        ChainCons(t, ts);
        assert ([t] + ts)[1..] == ts;
      }
    }
  }

  /** parse_roman_number succeeds exactly when the whole line tokenizes into at least one
      token, every token may follow the one before it, and then the value is the sum of the
      token values. */
  lemma ParseSucceeds(s: seq<char>, v: int)
    ensures Parse(s) == Success(v) <==>
      Lex(s, 0).Success? && |Lex(s, 0).value| >= 1 && Chain(Lex(s, 0).value) && v == Sum(Lex(s, 0).value)
  {
    if !IsEnd(At(s, 0)) && NextToken(s, 0).Success? {
      var Scanned(t, n) := NextToken(s, 0).value;
      DriveSucceeds(s, n, t, TokenValue(t), v);
      if Lex(s, n).Success? {
        assert ([t] + Lex(s, n).value)[1..] == Lex(s, n).value;
      }
    }
  }

  lemma {:induction false} LexWellFormed(s: seq<char>, i: nat)
    requires Lex(s, i).Success?
    ensures AllWellFormed(Lex(s, i).value)
    decreases |s| - i
  {
    if !IsEnd(At(s, i)) {
      ScanShape(s, i);
      LexWellFormed(s, i + NextToken(s, i).value.consumed);
    }
  }

  lemma RenderAllCons(t: Token, ts: seq<Token>)
    ensures RenderAll([t] + ts) == Render(t) + RenderAll(ts)
  {
    assert ([t] + ts)[1..] == ts;
  }

  lemma {:induction false} RenderAllAppend(a: seq<Token>, b: seq<Token>)
    ensures RenderAll(a + b) == RenderAll(a) + RenderAll(b)
  {
    if a != [] {
      assert (a + b)[0] == a[0] && (a + b)[1..] == a[1..] + b;
      RenderAllAppend(a[1..], b);
    } else {
      assert a + b == b;
    }
  }

  lemma {:induction false} SumAppend(a: seq<Token>, b: seq<Token>)
    ensures Sum(a + b) == Sum(a) + Sum(b)
  {
    if a != [] {
      assert (a + b)[0] == a[0] && (a + b)[1..] == a[1..] + b;
      SumAppend(a[1..], b);
    } else {
      assert a + b == b;
    }
  }

  /** One step of Lex: a nonempty result starts with the token at i. */
  lemma LexCons(s: seq<char>, i: nat, ts: seq<Token>)
    requires Lex(s, i) == Success(ts) && ts != []
    ensures NextToken(s, i).Success? && NextToken(s, i).value.token == ts[0]
    ensures Lex(s, i + NextToken(s, i).value.consumed) == Success(ts[1..])
  {
    var sc := NextToken(s, i).value;
    assert ([sc.token] + Lex(s, i + sc.consumed).value)[1..] == Lex(s, i + sc.consumed).value;
  }

  /** From position i on, s holds the text w and then a terminator, with no terminator
      inside w. */
  predicate Spells(s: seq<char>, i: nat, w: string) {
    && i + |w| <= |s| && s[i..i + |w|] == w && IsEnd(At(s, i + |w|))
    && forall j :: i <= j < i + |w| ==> !IsEnd(s[j])
  }

  /** A token's text followed by the text of the rest of the line is the text of the line. */
  lemma Glue(s: seq<char>, i: nat, n: nat, a: string, b: string)
    requires i + n <= |s| && s[i..i + n] == a && n == |a|
    requires forall j :: i <= j < i + n ==> !IsEnd(s[j])
    requires Spells(s, i + n, b)
    ensures Spells(s, i, a + b)
  {
    assert s[i..i + n + |b|] == s[i..i + n] + s[i + n..i + n + |b|];
  }

  /** One step of Lex, with what the step consumed. */
  lemma LexStep(s: seq<char>, i: nat, ts: seq<Token>) returns (n: nat)
    requires Lex(s, i) == Success(ts) && ts != []
    ensures 1 <= n && i + n <= |s| && n == |Render(ts[0])|
    ensures Lex(s, i + n) == Success(ts[1..])
    ensures s[i..i + n] == Render(ts[0])
    ensures forall j :: i <= j < i + n ==> !IsEnd(s[j])
  {
    LexCons(s, i, ts);
    n := NextToken(s, i).value.consumed;
    ScanShape(s, i);
    ScanRendersInput(s, i);
  }

  /** The tokens of a line, rendered back, are the characters of the line up to its
      terminator. */
  lemma {:induction false} LexRendersLine(s: seq<char>, i: nat, ts: seq<Token>)
    requires i <= |s| && Lex(s, i) == Success(ts)
    ensures Spells(s, i, RenderAll(ts))
    decreases |s| - i
  {
    if ts != [] {
      var n := LexStep(s, i, ts);
      LexRendersLine(s, i + n, ts[1..]);
      GlueTokens(s, i, n, ts);
    }
  }

  /** The first token's text glued to the text of the others. */
  lemma GlueTokens(s: seq<char>, i: nat, n: nat, ts: seq<Token>)
    requires ts != [] && i + n <= |s| && n == |Render(ts[0])| && s[i..i + n] == Render(ts[0])
    requires forall j :: i <= j < i + n ==> !IsEnd(s[j])
    requires Spells(s, i + n, RenderAll(ts[1..]))
    ensures Spells(s, i, RenderAll(ts))
  {
    RenderAllCons(ts[0], ts[1..]);
    assert ts == [ts[0]] + ts[1..];
    Glue(s, i, n, Render(ts[0]), RenderAll(ts[1..]));
  }

  /** The line is the prefix up to the first terminator. */
  lemma LineIs(s: seq<char>, e: nat)
    requires e <= |s| && IsEnd(At(s, e))
    requires forall j :: 0 <= j < e ==> !IsEnd(s[j])
    ensures Line(s) == s[..e]
  {
  }

  lemma {:induction false} LexShift(p: seq<char>, s: seq<char>, j: nat)
    ensures Lex(p + s, |p| + j) == Lex(s, j)
    decreases |s| - j
  {
    assert At(p + s, |p| + j) == At(s, j);
    ScanShift(p, s, j);
    if !IsEnd(At(s, j)) && NextToken(s, j).Success? {
      LexShift(p, s, j + NextToken(s, j).value.consumed);
    }
  }

  /** The text of tokens that may follow t starts with a numeral below t's lead. */
  lemma FollowerStartsLower(t: Token, rest: seq<Token>)
    requires rest != [] && WellFormed(t) && WellFormed(rest[0]) && ValidSequence(t, rest[0])
    ensures RenderAll(rest) != []
    ensures CharValue(RenderAll(rest)[0]) == Some(Lead(rest[0])) && Lead(rest[0]) < Lead(t)
  {
    WellFormedToken(rest[0]);
    SequenceDecreases(t, rest[0]);
    RenderAllCons(rest[0], rest[1..]);
    assert rest == [rest[0]] + rest[1..];
    DigitRoundTrip(Lead(rest[0]));
  }

  /** Scanning the rendering of a chain of well-formed tokens gives the same tokens back. */
  lemma {:induction false} LexOfRendered(ts: seq<Token>)
    requires Chain(ts) && AllWellFormed(ts)
    ensures Lex(RenderAll(ts), 0) == Success(ts)
  {
    if ts != [] {
      ChainRest(ts);
      LexOfRendered(ts[1..]);
      LexPrepend(ts);
    }
  }

  lemma ChainRest(ts: seq<Token>)
    requires ts != [] && Chain(ts) && AllWellFormed(ts)
    ensures Chain(ts[1..]) && AllWellFormed(ts[1..])
    ensures WellFormed(ts[0]) && (|ts| > 1 ==> ValidSequence(ts[0], ts[1]))
  {
    ChainCons(ts[0], ts[1..]);
    assert ts == [ts[0]] + ts[1..];
  }

  /** Scanning the first token's text, then the text of the others. */
  lemma LexPrepend(ts: seq<Token>)
    requires ts != [] && Chain(ts) && AllWellFormed(ts)
    requires Lex(RenderAll(ts[1..]), 0) == Success(ts[1..])
    ensures Lex(RenderAll(ts), 0) == Success(ts)
  {
    var t, rest := ts[0], ts[1..];
    ChainRest(ts);
    RenderAllCons(t, rest);
    assert ts == [t] + rest;
    WellFormedToken(t);
    var r := RenderAll(rest);
    if rest != [] {
      assert rest[0] == ts[1];
      FollowerStartsLower(t, rest);
    }
    ScanRendered(t, r);
    LexShift(Render(t), r, 0);
    assert At(Render(t) + r, 0) == Render(t)[0];
  }

  lemma {:induction false} SumAtLeastLength(ts: seq<Token>)
    requires AllWellFormed(ts)
    ensures Sum(ts) >= |ts|
  {
    if ts != [] {
      WellFormedToken(ts[0]);
      SumAtLeastLength(ts[1..]);
    }
  }

  /** On success the value is at least 1. */
  lemma ParsePositive(s: seq<char>, v: int)
    requires Parse(s) == Success(v)
    ensures v >= 1
  {
    ParseSucceeds(s, v);
    LexWellFormed(s, 0);
    SumAtLeastLength(Lex(s, 0).value);
  }

  lemma {:induction false} ChainLeadsDecrease(ts: seq<Token>)
    requires Chain(ts) && AllWellFormed(ts)
    ensures forall j, k :: 0 <= j < k < |ts| ==> Lead(ts[j]) > Lead(ts[k])
  {
    if ts != [] {
      ChainCons(ts[0], ts[1..]);
      assert ts == [ts[0]] + ts[1..];
      ChainLeadsDecrease(ts[1..]);
      if |ts| > 1 {
        SequenceDecreases(ts[0], ts[1]);
      }
      forall j, k | 0 <= j < k < |ts| ensures Lead(ts[j]) > Lead(ts[k]) {
        if j > 0 {
          assert ts[j] == ts[1..][j - 1] && ts[k] == ts[1..][k - 1];
        } else if k > 1 {
          assert ts[1] == ts[1..][0] && ts[k] == ts[1..][k - 1];
        }
      }
    }
  }

  /** On success the lead values of the tokens strictly decrease along the line. */
  lemma ParseLeadsDecrease(s: seq<char>, v: int)
    requires Parse(s) == Success(v)
    ensures Lex(s, 0).Success?
    ensures var ts := Lex(s, 0).value;
      forall j, k :: 0 <= j < k < |ts| ==> Lead(ts[j]) > Lead(ts[k])
  {
    ParseSucceeds(s, v);
    LexWellFormed(s, 0);
    ChainLeadsDecrease(Lex(s, 0).value);
  }

  lemma {:induction false} DriveErrors(s: seq<char>, i: nat, prev: Token, tally: int)
    ensures Drive(s, i, prev, tally).Failure? ==>
      !Drive(s, i, prev, tally).error.EmptyInput? && !Drive(s, i, prev, tally).error.EndOfInput?
    decreases |s| - i
  {
    ScanFailures(s, i);
    if !IsEnd(At(s, i)) && NextToken(s, i).Success? {
      var Scanned(t, n) := NextToken(s, i).value;
      DriveErrors(s, i + n, t, tally + TokenValue(t));
    }
  }

  /** An empty line (a NUL at the start) is rejected as empty; a newline at the start is
      rejected with the tokenizer's end-of-input error instead; neither error arises later. */
  lemma ParseEmptyAndEnd(s: seq<char>)
    ensures Parse(s) == Failure(EmptyInput) <==> At(s, 0) == '\0'
    ensures Parse(s) == Failure(EndOfInput) <==> At(s, 0) == '\n'
  {
    ScanFailures(s, 0);
    if !IsEnd(At(s, 0)) && NextToken(s, 0).Success? {
      var Scanned(t, n) := NextToken(s, 0).value;
      DriveErrors(s, n, t, TokenValue(t));
    }
  }

  lemma {:induction false} DriveLocal(s: seq<char>, s': seq<char>, i: nat, k: nat, prev: Token, tally: int)
    requires i <= k
    requires forall j :: i <= j < k ==> At(s, j) == At(s', j)
    requires IsEnd(At(s, k)) && IsEnd(At(s', k))
    ensures Drive(s, i, prev, tally) == Drive(s', i, prev, tally)
    decreases k - i
  {
    ScanLocal(s, s', i, k);
    if !IsEnd(At(s, i)) && NextToken(s, i).Success? {
      ScanBefore(s, i, k);
      var Scanned(t, n) := NextToken(s, i).value;
      DriveLocal(s, s', i + n, k, t, tally + TokenValue(t));
    }
  }

  /** parse_roman_number never reads past a terminator: two inputs that agree on the
      characters before some position k > 0 and both hold a terminator there parse alike. */
  lemma ParseLocal(s: seq<char>, s': seq<char>, k: nat)
    requires 0 < k
    requires forall j :: 0 <= j < k ==> At(s, j) == At(s', j)
    requires IsEnd(At(s, k)) && IsEnd(At(s', k))
    ensures Parse(s) == Parse(s')
  {
    ScanLocal(s, s', 0, k);
    if !IsEnd(At(s, 0)) && NextToken(s, 0).Success? {
      ScanBefore(s, 0, k);
      var Scanned(t, n) := NextToken(s, 0).value;
      DriveLocal(s, s', n, k, t, TokenValue(t));
    }
  }

  /** Scanning stops at the first newline: whatever follows it is ignored. */
  lemma ParseIgnoresRest(s: seq<char>, u: seq<char>)
    ensures Parse(s + ['\n'] + u) == Parse(s + ['\n'])
  {
    var x, y := s + ['\n'] + u, s + ['\n'];
    if s == [] {
      ScanFailures(x, 0);
      ScanFailures(y, 0);
    } else {
      ParseLocal(x, y, |s|);
    }
  }

  /** Only the line counts: a nonempty line parses as it would on its own. */
  lemma ParseLine(s: seq<char>)
    requires Line(s) != []
    ensures Parse(s) == Parse(Line(s))
  {
    ParseLocal(s, Line(s), |Line(s)|);
  }

  lemma {:induction false} RenderAllNumerals(ts: seq<Token>)
    requires AllWellFormed(ts)
    ensures forall j :: 0 <= j < |RenderAll(ts)| ==> CharValue(RenderAll(ts)[j]).Some?
  {
    if ts != [] {
      var t := ts[0];
      WellFormedToken(t);
      RenderAllNumerals(ts[1..]);
      DigitRoundTrip(Lead(t));
      DigitRoundTrip(Trail(t));
      assert forall j :: 0 <= j < |Render(t)| ==> CharValue(Render(t)[j]).Some?;
    }
  }

  /** On success the line is the rendering of its tokens, so it holds numeral characters
      only: a line with any other character is rejected. */
  lemma ParseReadsNumerals(s: seq<char>, v: int)
    requires Parse(s) == Success(v)
    ensures Lex(s, 0).Success? && Line(s) == RenderAll(Lex(s, 0).value)
    ensures forall j :: 0 <= j < |Line(s)| ==> CharValue(Line(s)[j]).Some?
  {
    ParseSucceeds(s, v);
    var ts := Lex(s, 0).value;
    LexRendersLine(s, 0, ts);
    LineIs(s, |RenderAll(ts)|);
    LexWellFormed(s, 0);
    RenderAllNumerals(ts);
  }

  /** A well-formed token, written out on its own, parses to its value. */
  lemma ParseRendered(t: Token)
    requires WellFormed(t)
    ensures Parse(Render(t)) == Success(TokenValue(t))
  {
    var ts := [t];
    assert ts[1..] == [];
    assert RenderAll(ts) == Render(t);
    LexOfRendered(ts);
    ParseSucceeds(Render(t), TokenValue(t));
  }

  /** w occurs in l as consecutive characters. */
  predicate IsInfix(w: string, l: string) {
    (|w| <= |l| && l[..|w|] == w) || (l != [] && IsInfix(w, l[1..]))
  }

  lemma {:induction false} InfixAt(w: string, l: string, m: nat)
    requires m + |w| <= |l| && l[m..m + |w|] == w
    ensures IsInfix(w, l)
  {
    if m > 0 {
      assert l[1..][m - 1..m - 1 + |w|] == l[m..m + |w|];
      InfixAt(w, l[1..], m - 1);
    }
  }

  /** Two consecutive pieces of text before the first terminator occur in the line. */
  lemma AdjacentInLine(s: seq<char>, m: nat, i: nat, e: nat, a: string, b: string)
    requires m <= i <= e <= |s| && s[m..i] == a && s[i..e] == b
    requires forall j :: 0 <= j < e ==> !IsEnd(s[j])
    ensures IsInfix(a + b, Line(s))
  {
    LineReaches(s, e);
    SliceOfLine(s, m, i, e);
    assert |a + b| == e - m;
    InfixAt(a + b, Line(s), m);
  }

  /** The line extends at least over any stretch of the input free of terminators. */
  lemma LineReaches(s: seq<char>, e: nat)
    requires e <= |s|
    requires forall j :: 0 <= j < e ==> !IsEnd(s[j])
    ensures e <= |Line(s)|
  {
  }

  lemma SliceOfLine(s: seq<char>, m: nat, i: nat, e: nat)
    requires m <= i <= e <= |Line(s)|
    ensures Line(s)[m..e] == s[m..i] + s[i..e]
  {
    var l := Line(s);
    assert l[m..e] == s[..|l|][m..e] == s[m..e];
    assert s[m..e] == s[m..i] + s[i..e];
  }

  lemma {:induction false} DriveSequenceError(s: seq<char>, p: nat, i: nat, prev: Token, tally: int, a: Token, b: Token)
    requires WellFormed(prev)
    requires p <= i <= |s| && s[p..i] == Render(prev)
    requires forall j :: 0 <= j < i ==> !IsEnd(s[j])
    requires Drive(s, i, prev, tally) == Failure(InvalidSequence(a, b))
    ensures WellFormed(a) && WellFormed(b) && !ValidSequence(a, b)
    ensures IsInfix(Render(a) + Render(b), Line(s))
    decreases |s| - i
  {
    ScanErrorKinds(s, i);
    var Scanned(t, n) := NextToken(s, i).value;
    TokenText(s, i);
    if ValidSequence(prev, t) {
      DriveSequenceError(s, i, i + n, t, tally + TokenValue(t), a, b);
    } else {
      AdjacentInLine(s, p, i, i + n, Render(prev), Render(t));
    }
  }

  /** A token read at i is well-formed and its text is the characters it consumed, none of
      them a terminator. */
  lemma TokenText(s: seq<char>, i: nat)
    requires NextToken(s, i).Success?
    requires forall j :: 0 <= j < i ==> !IsEnd(s[j])
    ensures var Scanned(t, n) := NextToken(s, i).value;
      && WellFormed(t) && n == |Render(t)| && i + n <= |s| && s[i..i + n] == Render(t)
      && forall j :: 0 <= j < i + n ==> !IsEnd(s[j])
  {
    ScanShape(s, i);
    ScanRendersInput(s, i);
  }

  /** A sequence error names two well-formed tokens that may not follow each other, and
      their renderings are consecutive text of the rejected line. It is the first failure:
      the tokens up to position m, the last of them a, were read without error and each may
      follow the one before it, and b is the token at m. */
  lemma ParseSequenceError(s: seq<char>, a: Token, b: Token) returns (ts: seq<Token>, m: nat)
    requires Parse(s) == Failure(InvalidSequence(a, b))
    ensures WellFormed(a) && WellFormed(b) && !ValidSequence(a, b)
    ensures IsInfix(Render(a) + Render(b), Line(s))
    ensures TokensBetween(s, 0, m) == Some(ts) && ts != [] && ts[|ts| - 1] == a && Chain(ts)
    ensures NextToken(s, m).Success? && NextToken(s, m).value.token == b
  {
    ScanErrorKinds(s, 0);
    var Scanned(t, n) := NextToken(s, 0).value;
    TokenText(s, 0);
    DriveSequenceError(s, 0, n, t, TokenValue(t), a, b);
    assert TokensBetween(s, n, n) == Some([]);
    assert [t] + [] == [t];
    ts, m := DriveReachesError(s, n, t, TokenValue(t), a, b, [t]);
  }

  /** The tokens read from i on that end exactly at position m; None when a read fails, meets
      a terminator, or goes past m. */
  function TokensBetween(s: seq<char>, i: nat, m: nat): Option<seq<Token>>
    decreases m - i
  {
    if i == m then Some([])
    else if i > m || IsEnd(At(s, i)) then None
    else match NextToken(s, i)
      case Failure(_) => None
      case Success(sc) =>
        match TokensBetween(s, i + sc.consumed, m)
        case None => None
        case Some(ts) => Some([sc.token] + ts)
  }

  lemma {:induction false} TokensBetweenSnoc(s: seq<char>, j: nat, i: nat, xs: seq<Token>, t: Token, n: nat)
    requires TokensBetween(s, j, i) == Some(xs)
    requires !IsEnd(At(s, i)) && NextToken(s, i) == Success(Scanned(t, n))
    ensures TokensBetween(s, j, i + n) == Some(xs + [t])
    decreases i - j
  {
    if j == i {
      assert TokensBetween(s, i + n, i + n) == Some([]);
      assert xs + [t] == [t] + [];
    } else {
      var sc := NextToken(s, j).value;
      var rest := TokensBetween(s, j + sc.consumed, i).value;
      TokensBetweenSnoc(s, j + sc.consumed, i, rest, t, n);
      assert xs == [sc.token] + rest;
      assert xs + [t] == [sc.token] + (rest + [t]);
    }
  }

  lemma ChainSnoc(xs: seq<Token>, t: Token)
    requires Chain(xs) && xs != [] && ValidSequence(xs[|xs| - 1], t)
    ensures Chain(xs + [t])
  {
    var ys := xs + [t];
    forall k | 0 <= k < |ys| - 1 ensures ValidSequence(ys[k], ys[k + 1]) {
      assert ys[k] == xs[k];
      if k + 1 < |xs| {
        assert ys[k + 1] == xs[k + 1];
      }
    }
  }

  /** The driver reaches a sequence error only after reading, without error, a chain of
      tokens that ends with the first token of the error. */
  lemma {:induction false} DriveReachesError(s: seq<char>, i: nat, prev: Token, tally: int, a: Token, b: Token,
                                             xs: seq<Token>) returns (ts: seq<Token>, m: nat)
    requires TokensBetween(s, 0, i) == Some(xs) && xs != [] && xs[|xs| - 1] == prev && Chain(xs)
    requires Drive(s, i, prev, tally) == Failure(InvalidSequence(a, b))
    ensures TokensBetween(s, 0, m) == Some(ts) && ts != [] && ts[|ts| - 1] == a && Chain(ts)
    ensures NextToken(s, m).Success? && NextToken(s, m).value.token == b
    decreases |s| - i
  {
    ScanErrorKinds(s, i);
    var Scanned(t, n) := NextToken(s, i).value;
    if ValidSequence(prev, t) {
      ReachStep(s, i, xs, t, n);
      ts, m := DriveReachesError(s, i + n, t, tally + TokenValue(t), a, b, xs + [t]);
    } else {
      ts, m := xs, i;
    }
  }

  /** One more token read without error extends the chain read so far. */
  lemma ReachStep(s: seq<char>, i: nat, xs: seq<Token>, t: Token, n: nat)
    requires TokensBetween(s, 0, i) == Some(xs) && xs != [] && Chain(xs)
    requires !IsEnd(At(s, i)) && NextToken(s, i) == Success(Scanned(t, n))
    requires ValidSequence(xs[|xs| - 1], t)
    ensures TokensBetween(s, 0, i + n) == Some(xs + [t]) && (xs + [t])[|xs|] == t && Chain(xs + [t])
  {
    TokensBetweenSnoc(s, 0, i, xs, t, n);
    ChainSnoc(xs, t);
  }

  lemma {:induction false} DriveTokenizerError(s: seq<char>, i: nat, prev: Token, tally: int, e: Err)
    requires Drive(s, i, prev, tally) == Failure(e) && !e.InvalidSequence?
    ensures Lex(s, i) == Failure(e)
    decreases |s| - i
  {
    if NextToken(s, i).Success? {
      var Scanned(t, n) := NextToken(s, i).value;
      DriveTokenizerError(s, i + n, t, tally + TokenValue(t), e);
    }
  }

  /** A failure other than a sequence error, on a line that does not start with a terminator,
      is the first error the tokenizer meets along the line. */
  lemma ParseTokenizerError(s: seq<char>, e: Err)
    requires Parse(s) == Failure(e) && !e.InvalidSequence? && !IsEnd(At(s, 0))
    ensures Lex(s, 0) == Failure(e)
  {
    if NextToken(s, 0).Success? {
      var Scanned(t, n) := NextToken(s, 0).value;
      DriveTokenizerError(s, n, t, TokenValue(t), e);
    }
  }

  lemma {:induction false} DriveLexError(s: seq<char>, i: nat, prev: Token, tally: int, e: Err)
    requires Lex(s, i) == Failure(e)
    ensures Drive(s, i, prev, tally) == Failure(e) ||
      (Drive(s, i, prev, tally).Failure? && Drive(s, i, prev, tally).error.InvalidSequence?)
    decreases |s| - i
  {
    if NextToken(s, i).Success? {
      var Scanned(t, n) := NextToken(s, i).value;
      if ValidSequence(prev, t) {
        DriveLexError(s, i + n, t, tally + TokenValue(t), e);
      }
    }
  }

  /** Conversely, when the tokenizer fails somewhere along a nonempty line, the parse fails
      with that error, unless a sequence error comes first. */
  lemma ParseLexError(s: seq<char>, e: Err)
    requires Lex(s, 0) == Failure(e) && At(s, 0) != '\0'
    ensures Parse(s) == Failure(e) || (Parse(s).Failure? && Parse(s).error.InvalidSequence?)
  {
    if NextToken(s, 0).Success? {
      var Scanned(t, n) := NextToken(s, 0).value;
      DriveLexError(s, n, t, TokenValue(t), e);
    }
  }
}
