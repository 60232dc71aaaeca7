/** The standard Roman numeral of a number, and what the parser accepts: exactly the lines
    that are the standard numeral of a positive number, with any number of leading M. */
module Canonical {
  import opened Digits
  import opened Tokens
  import opened Rules
  import opened Results
  import opened Tokenizer
  import opened Parser

  /** The powers of ten that have a numeral character. */
  predicate IsDecade(u: int) {
    u == 1 || u == 10 || u == 100 || u == 1000
  }

  /** The standard numeral of one decimal digit d, written with the characters for one, five
      and ten units of its place. */
  function Group(d: int, one: char, five: char, ten: char): string {
    if d <= 0 then []
    else if d <= 3 then seq(d, _ => one)
    else if d == 4 then [one, five]
    else if d <= 8 then [five] + seq(d - 5, _ => one)
    else [one, ten]
  }

  /** The standard Roman numeral of n: one M per thousand, then the hundreds, tens and units
      digits each written in its own place. */
  function ToRoman(n: nat): string {
    seq(n / 1000, _ => 'M')
    + Group(n / 100 % 10, 'C', 'D', 'M')
    + Group(n / 10 % 10, 'X', 'L', 'C')
    + Group(n % 10, 'I', 'V', 'X')
  }

  /** The tokens of the standard numeral of digit d in place u; in the thousands place d is
      the whole number of thousands. */
  function GroupTokens(d: int, u: int): seq<Token> {
    if d <= 0 then []
    else if u == 1000 then [Repeat(1000, d)]
    else if d <= 3 then [Repeat(u, d)]
    else if d == 4 then [Pair(u, 5 * u)]
    else if d == 5 then [Repeat(5 * u, 1)]
    else if d <= 8 then [Repeat(5 * u, 1), Repeat(u, d - 5)]
    else [Pair(u, 10 * u)]
  }

  /** The place below u; the units place has none and maps to itself. */
  function Lower(u: int): int {
    if u == 1000 then 100 else if u == 100 then 10 else 1
  }

  /** The digit of n in place u; the thousands place takes all thousands. */
  function PlaceDigit(n: nat, u: int): nat
    requires IsDecade(u)
  {
    if u == 1000 then n / 1000 else n / u % 10
  }

  /** The tokens of the standard numeral of n, from place u down. */
  function Canon(n: nat, u: int): seq<Token>
    requires IsDecade(u)
    decreases u
  {
    GroupTokens(PlaceDigit(n, u), u) + (if u == 1 then [] else Canon(n % u, Lower(u)))
  }

  lemma {:induction false} AllWellFormedAppend(a: seq<Token>, b: seq<Token>)
    requires AllWellFormed(a) && AllWellFormed(b)
    ensures AllWellFormed(a + b)
  {
    forall k | 0 <= k < |a + b| ensures WellFormed((a + b)[k]) {
      if k >= |a| {
        assert (a + b)[k] == b[k - |a|];
      }
    }
  }

  lemma ChainAppend(a: seq<Token>, b: seq<Token>)
    requires Chain(a) && Chain(b)
    requires a != [] && b != [] ==> ValidSequence(a[|a| - 1], b[0])
    ensures Chain(a + b)
  {
    forall k | 0 <= k < |a + b| - 1 ensures ValidSequence((a + b)[k], (a + b)[k + 1]) {
      if k >= |a| {
        assert (a + b)[k] == b[k - |a|] && (a + b)[k + 1] == b[k + 1 - |a|];
      } else if k == |a| - 1 {
        assert (a + b)[k + 1] == b[0];
      }
    }
  }

  lemma TwoTokens(a: Token, b: Token)
    ensures Sum([a, b]) == TokenValue(a) + TokenValue(b)
    ensures RenderAll([a, b]) == Render(a) + Render(b)
  {
    assert [a, b][1..] == [b];
    assert [b][1..] == [];
    assert Sum([b]) == TokenValue(b);
    assert RenderAll([b]) == Render(b);
  }

  /** One place's tokens form a valid chain of well-formed tokens of that place, worth d
      units of it. */
  lemma GroupValid(d: int, u: int)
    requires IsDecade(u) && 0 <= d && (u < 1000 ==> d < 10)
    ensures Chain(GroupTokens(d, u)) && AllWellFormed(GroupTokens(d, u))
    ensures Sum(GroupTokens(d, u)) == d * u
    ensures forall k :: 0 <= k < |GroupTokens(d, u)| ==> Decade(GroupTokens(d, u)[k]) == u
  {
    var g := GroupTokens(d, u);
    if |g| == 2 {
      TwoTokens(g[0], g[1]);
      assert g == [g[0], g[1]];
    }
  }

  /** A number below ten units of a place is its digit there and the remainder. */
  lemma PlaceDecompose(n: nat, u: int)
    requires IsDecade(u) && (u < 1000 ==> n < 10 * u)
    ensures n == PlaceDigit(n, u) * u + n % u && n % u < u
  {
    if u == 1 {
    } else if u == 10 {
    } else if u == 100 {
    } else {
    }
  }

  /** The tokens of the standard numeral are a valid chain of well-formed tokens adding up to
      the number. */
  lemma {:induction false} CanonValid(n: nat, u: int)
    requires IsDecade(u) && (u < 1000 ==> n < 10 * u)
    ensures Chain(Canon(n, u)) && AllWellFormed(Canon(n, u)) && Sum(Canon(n, u)) == n
    ensures Canon(n, u) != [] ==> Decade(Canon(n, u)[0]) <= u
    decreases u
  {
    var d := PlaceDigit(n, u);
    var g := GroupTokens(d, u);
    GroupValid(d, u);
    if u == 1 {
      assert d == n;
      assert Canon(n, u) == g;
    } else {
      var m := n % u;
      var tail := Canon(m, Lower(u));
      CanonValid(m, Lower(u));
      if g != [] && tail != [] {
        DecadeOrder(g[|g| - 1], tail[0]);
      }
      ChainAppend(g, tail);
      AllWellFormedAppend(g, tail);
      SumAppend(g, tail);
      PlaceDecompose(n, u);
      if g != [] {
        assert (g + tail)[0] == g[0];
      }
    }
  }

  lemma {:induction false} ChainTail(ts: seq<Token>, k: nat)
    requires Chain(ts) && AllWellFormed(ts) && k <= |ts|
    ensures Chain(ts[k..]) && AllWellFormed(ts[k..])
  {
    forall j | 0 <= j < |ts[k..]| - 1 ensures ValidSequence(ts[k..][j], ts[k..][j + 1]) {
      assert ts[k..][j] == ts[k + j] && ts[k..][j + 1] == ts[k + j + 1];
    }
  }

  /** The well-formed tokens of one place: below the thousands they are a run of one to three
      ones, the two pairs, or a single five; in the thousands place a run of M. */
  lemma TokenOfPlace(t: Token, u: int)
    requires IsDecade(u) && WellFormed(t) && Decade(t) == u
    ensures u == 1000 ==> t.Repeat? && t.digit == 1000 && t.count >= 1
    ensures u < 1000 ==>
      (t.Repeat? && t.digit == u && 1 <= t.count <= 3) || t == Pair(u, 5 * u) ||
      t == Pair(u, 10 * u) || t == Repeat(5 * u, 1)
  {
  }

  /** Lead values below a place belong to a lower place. */
  lemma BelowPlace(t: Token, u: int)
    requires WellFormed(t) && Lead(t) < u
    ensures Decade(t) < u
  {
    WellFormedToken(t);
  }

  /** The tokens at the front of a valid chain that belong to place u are the standard tokens
      of one digit of that place. */
  lemma SplitPlace(ts: seq<Token>, u: int) returns (k: nat, d: nat)
    requires IsDecade(u) && Chain(ts) && AllWellFormed(ts)
    requires ts != [] ==> Decade(ts[0]) <= u
    ensures k == PlaceCount(ts, u) && ts[..k] == GroupTokens(d, u)
    ensures u < 1000 ==> d < 10
    ensures k < |ts| ==> Decade(ts[k]) < u
  {
    if ts == [] || Decade(ts[0]) < u {
      return 0, 0;
    }
    var t := ts[0];
    TokenOfPlace(t, u);
    if |ts| > 1 {
      assert ValidSequence(ts[0], ts[1]);
      SequenceDecreases(ts[0], ts[1]);
    }
    if Lead(t) == u {
      k := 1;
      d := if t.Repeat? then t.count else if t.suffix == 5 * u then 4 else 9;
      if |ts| > 1 {
        BelowPlace(ts[1], u);
      }
    } else if |ts| > 1 && Decade(ts[1]) == u {
      TokenOfPlace(ts[1], u);
      k := 2;
      d := 5 + ts[1].count;
      if |ts| > 2 {
        assert ValidSequence(ts[1], ts[2]);
        SequenceDecreases(ts[1], ts[2]);
        BelowPlace(ts[2], u);
      }
    } else {
      k := 1;
      d := 5;
    }
  }

  /** Division by a place value splits off its digit. */
  lemma PlaceSplit(d: nat, r: nat, u: int)
    requires IsDecade(u) && r < u && (u < 1000 ==> d < 10)
    ensures PlaceDigit(d * u + r, u) == d && (d * u + r) % u == r
  {
    if u == 1 {
      assert d * u + r == d;
    } else if u == 10 {
      DivMod(d * 10 + r, 10, d, r);
    } else if u == 100 {
      DivMod(d * 100 + r, 100, d, r);
    } else {
      DivMod(d * 1000 + r, 1000, d, r);
    }
  }

  lemma DivMod(a: int, b: int, q: int, r: int)
    requires (b == 10 || b == 100 || b == 1000) && a == q * b + r && 0 <= r < b
    ensures a / b == q && a % b == r
  {
    if b == 10 {
    } else if b == 100 {
    } else {
    }
  }

  /** Uniqueness: a valid chain of well-formed tokens starting at place u or below is the
      standard numeral of its sum, and below the thousands it is worth less than ten units
      of u. */
  lemma {:induction false} ChainIsCanonical(ts: seq<Token>, u: int)
    requires IsDecade(u) && Chain(ts) && AllWellFormed(ts)
    requires ts != [] ==> Decade(ts[0]) <= u
    ensures Sum(ts) >= 0
    ensures u < 1000 ==> Sum(ts) < 10 * u
    ensures ts == Canon(Sum(ts), u)
    decreases u
  {
    RestOfPlace(ts, u);
    if u > 1 {
      ChainIsCanonical(ts[PlaceCount(ts, u)..], Lower(u));
    }
    Reassemble(ts, u);
  }

  /** How many tokens at the front of a chain belong to place u. */
  function PlaceCount(ts: seq<Token>, u: int): (k: nat)
    ensures k <= |ts|
  {
    if ts == [] || Decade(ts[0]) != u then 0
    else if Lead(ts[0]) == u || |ts| == 1 || Decade(ts[1]) != u then 1
    else 2
  }

  /** What follows the tokens of place u is a valid chain from a lower place. */
  lemma RestOfPlace(ts: seq<Token>, u: int)
    requires IsDecade(u) && Chain(ts) && AllWellFormed(ts)
    requires ts != [] ==> Decade(ts[0]) <= u
    ensures var rest := ts[PlaceCount(ts, u)..];
      && Chain(rest) && AllWellFormed(rest)
      && (u == 1 ==> rest == [])
      && (rest != [] ==> Decade(rest[0]) <= Lower(u))
  {
    var k, d := SplitPlace(ts, u);
    var rest := ts[k..];
    ChainTail(ts, k);
    if rest != [] {
      assert rest[0] == ts[k];
      WellFormedToken(rest[0]);
    }
  }

  /** Putting the tokens of place u back in front of the standard tokens of the lower places
      gives the standard tokens of the sum. */
  lemma {:induction false} Reassemble(ts: seq<Token>, u: int)
    requires IsDecade(u) && Chain(ts) && AllWellFormed(ts)
    requires ts != [] ==> Decade(ts[0]) <= u
    requires var rest := ts[PlaceCount(ts, u)..];
      u > 1 ==> 0 <= Sum(rest) < u && rest == Canon(Sum(rest), Lower(u))
    ensures Sum(ts) >= 0
    ensures u < 1000 ==> Sum(ts) < 10 * u
    ensures ts == Canon(Sum(ts), u)
  {
    var d := PlaceParts(ts, u);
    RestOfPlace(ts, u);
    var rest := ts[PlaceCount(ts, u)..];
    var r := if u == 1 then 0 else Sum(rest);
    assert Sum(rest) == r by {
      if u == 1 {
        assert rest == [];
      }
    }
    Rejoin(u, d, r, rest, ts, Sum(ts));
  }

  /** A chain is the standard tokens of one digit of place u followed by the rest, and its
      sum is that digit's units plus the sum of the rest. */
  lemma PlaceParts(ts: seq<Token>, u: int) returns (d: nat)
    requires IsDecade(u) && Chain(ts) && AllWellFormed(ts)
    requires ts != [] ==> Decade(ts[0]) <= u
    ensures u < 1000 ==> d < 10
    ensures ts == GroupTokens(d, u) + ts[PlaceCount(ts, u)..]
    ensures Sum(ts) == d * u + Sum(ts[PlaceCount(ts, u)..])
  {
    var k;
    k, d := SplitPlace(ts, u);
    var head, rest := ts[..k], ts[k..];
    assert ts == head + rest;
    SumAppend(head, rest);
    GroupValid(d, u);
  }

  /** The standard tokens of d units of place u joined to those of a remainder below u: v
      is their value. */
  lemma Rejoin(u: int, d: nat, r: nat, rest: seq<Token>, ts: seq<Token>, v: int)
    requires IsDecade(u) && (u < 1000 ==> d < 10)
    requires u == 1 ==> rest == [] && r == 0
    requires u > 1 ==> r < u && rest == Canon(r, Lower(u))
    requires ts == GroupTokens(d, u) + rest && v == d * u + r
    ensures 0 <= v && (u < 1000 ==> v < 10 * u)
    ensures ts == Canon(v, u)
  {
    CanonOfPlace(d, r, u);
    if u == 1 {
      assert GroupTokens(d, u) + rest == GroupTokens(d, u);
    }
  }

  /** The standard tokens of d units of place u plus a remainder below u. */
  lemma CanonOfPlace(d: nat, r: nat, u: int)
    requires IsDecade(u) && r < u && (u < 1000 ==> d < 10)
    ensures 0 <= d * u + r && (u < 1000 ==> d * u + r < 10 * u)
    ensures u == 1 ==> Canon(d * u + r, u) == GroupTokens(d, u)
    ensures u > 1 ==> Canon(d * u + r, u) == GroupTokens(d, u) + Canon(r, Lower(u))
  {
    PlaceSplit(d, r, u);
    if u == 1 {
      assert Canon(d * u + r, u) == GroupTokens(d, u) + [];
    }
  }

  lemma GroupRender(d: int, u: int)
    requires u == 1 || u == 10 || u == 100
    requires 0 <= d < 10
    ensures RenderAll(GroupTokens(d, u)) ==
      Group(d, DigitToRoman(u), DigitToRoman(5 * u), DigitToRoman(10 * u))
  {
    var g := GroupTokens(d, u);
    if |g| == 2 {
      TwoTokens(g[0], g[1]);
      assert g == [g[0], g[1]];
    } else if |g| == 1 {
      assert RenderAll(g) == Render(g[0]);
    }
  }

  lemma ThousandsRender(d: nat)
    ensures RenderAll(GroupTokens(d, 1000)) == seq(d, _ => 'M')
  {
    if d > 0 {
      assert RenderAll(GroupTokens(d, 1000)) == Render(Repeat(1000, d));
    }
  }

  /** Unfolding the standard tokens by one place. */
  lemma CanonStep(n: nat, u: int)
    requires u == 10 || u == 100 || u == 1000
    ensures Canon(n, u) == GroupTokens(PlaceDigit(n, u), u) + Canon(n % u, Lower(u))
  {
  }

  /** The tokens of the standard numeral, place by place. */
  lemma CanonPlaces(n: nat)
    ensures Canon(n, 1000) == GroupTokens(n / 1000, 1000) + (GroupTokens(n % 1000 / 100 % 10, 100)
      + (GroupTokens(n % 1000 % 100 / 10 % 10, 10) + GroupTokens(n % 1000 % 100 % 10, 1)))
  {
    var r3 := n % 1000;
    var r2 := r3 % 100;
    var r1 := r2 % 10;
    CanonStep(n, 1000);
    CanonStep(r3, 100);
    CanonStep(r2, 10);
    assert Canon(r1, 1) == GroupTokens(r1, 1) + [];
  }

  /** The place digits reached by peeling off one place after the other. */
  lemma PlaceDigits(n: nat)
    ensures n % 1000 / 100 % 10 == n / 100 % 10
    ensures n % 1000 % 100 / 10 % 10 == n / 10 % 10
    ensures n % 1000 % 100 % 10 == n % 10
  {
    var q, r := n / 1000, n % 1000;
    var h, r2 := r / 100, r % 100;
    var t, e := r2 / 10, r2 % 10;
    DivMod(n, 100, 10 * q + h, r2);
    DivMod(10 * q + h, 10, q, h);
    DivMod(n, 10, 100 * q + 10 * h + t, e);
    DivMod(100 * q + 10 * h + t, 10, 10 * q + h, t);
  }

  /** The tokens of one place are written as that place's numeral. */
  lemma PlacesRender(a: nat, b: int, c: int, e: int)
    requires 0 <= b < 10 && 0 <= c < 10 && 0 <= e < 10
    ensures RenderAll(GroupTokens(a, 1000) + (GroupTokens(b, 100) + (GroupTokens(c, 10) + GroupTokens(e, 1))))
      == seq(a, _ => 'M') + Group(b, 'C', 'D', 'M') + Group(c, 'X', 'L', 'C') + Group(e, 'I', 'V', 'X')
  {
    var g3, g2, g1, g0 := GroupTokens(a, 1000), GroupTokens(b, 100), GroupTokens(c, 10), GroupTokens(e, 1);
    var m, x2, x1, x0 := seq(a, _ => 'M'), Group(b, 'C', 'D', 'M'), Group(c, 'X', 'L', 'C'), Group(e, 'I', 'V', 'X');
    ThousandsRender(a);
    GroupRender(b, 100);
    GroupRender(c, 10);
    GroupRender(e, 1);
    RenderAllAppend(g1, g0);
    assert RenderAll(g1 + g0) == x1 + x0;
    RenderAllAppend(g2, g1 + g0);
    assert RenderAll(g2 + (g1 + g0)) == x2 + (x1 + x0);
    RenderAllAppend(g3, g2 + (g1 + g0));
    Regroup(m, x2, x1, x0);
  }

  lemma Regroup(w: string, x: string, y: string, z: string)
    ensures w + (x + (y + z)) == w + x + y + z
  {
  }

  /** The tokens of the standard numeral are written exactly as the standard numeral. */
  lemma CanonRender(n: nat)
    ensures RenderAll(Canon(n, 1000)) == ToRoman(n)
  {
    CanonPlaces(n);
    PlacesRender(n / 1000, n % 1000 / 100 % 10, n % 1000 % 100 / 10 % 10, n % 1000 % 100 % 10);
    PlaceDigits(n);
  }

  /** The standard numeral of every positive number parses back to that number: there is no
      upper limit, since M may repeat without bound. */
  lemma ParseToRoman(n: nat)
    requires n >= 1
    ensures Parse(ToRoman(n)) == Success(n)
  {
    var ts := Canon(n, 1000);
    CanonValid(n, 1000);
    CanonRender(n);
    LexOfRendered(ts);
    ParseSucceeds(ToRoman(n), n);
  }

  /** The parser accepts exactly the standard numerals: it succeeds with v on s if and only if
      v is positive and the line of s is the standard numeral of v. */
  lemma ParseAcceptsExactlyCanonical(s: seq<char>, v: int)
    ensures Parse(s) == Success(v) <==> v >= 1 && Line(s) == ToRoman(v)
  {
    if Parse(s) == Success(v) {
      ParsePositive(s, v);
      ParseReadsNumerals(s, v);
      ParseSucceeds(s, v);
      var ts := Lex(s, 0).value;
      LexWellFormed(s, 0);
      ChainIsCanonical(ts, 1000);
      CanonRender(v);
    }
    if v >= 1 && Line(s) == ToRoman(v) {
      ParseToRoman(v);
      ParseEmptyAndEnd(ToRoman(v));
      ParseLine(s);
    }
  }

  /** Distinct numbers have distinct standard numerals. */
  lemma ToRomanInjective(m: nat, n: nat)
    requires m >= 1 && n >= 1 && ToRoman(m) == ToRoman(n)
    ensures m == n
  {
    ParseToRoman(m);
    ParseToRoman(n);
  }
}
