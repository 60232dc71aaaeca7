/** The validity rules: canonical pairs (valid_pair), repetition limits (valid_repeats) and
    the ordering of adjacent tokens (valid_sequence). */
module Rules {
  import opened Digits
  import opened Tokens

  /** valid_pair: the suffix decides which prefix may stand before it. */
  predicate ValidPair(prefix: int, suffix: int) {
    if suffix == 5 || suffix == 10 then prefix == 1
    else if suffix == 50 || suffix == 100 then prefix == 10
    else if suffix == 500 || suffix == 1000 then prefix == 100
    else false
  }

  /** valid_repeats: how many times in a row a digit may appear. */
  predicate ValidRepeats(digit: int, count: int) {
    if count == 0 then false
    else if digit == 5 || digit == 50 || digit == 500 then count == 1
    else if digit == 1 || digit == 10 || digit == 100 then count < 4
    else digit == 1000
  }

  /** valid_sequence: whether `second` may directly follow `first`. After V, L or D the next
      token must end below it; otherwise the next token must start below the first. */
  predicate ValidSequence(first: Token, second: Token) {
    var lead := Lead(first);
    if lead == 5 || lead == 50 || lead == 500 then lead > Trail(second)
    else lead > Lead(second)
  }

  /** A token the tokenizer can produce: a canonical pair or an allowed run. */
  predicate WellFormed(t: Token) {
    match t
    case Pair(p, s) => ValidPair(p, s)
    case Repeat(d, n) => ValidRepeats(d, n)
  }

  /** The power of ten whose decade (u or 5u) a token's lead value lies in. */
  function Decade(t: Token): int {
    var l := Lead(t);
    if l < 10 then 1 else if l < 100 then 10 else if l < 1000 then 100 else 1000
  }

  /** The six canonical pairs, and nothing else, are valid: a power of ten below 1000 before
      the next two larger digits. */
  lemma ValidPairIsSubtractive(prefix: int, suffix: int)
    ensures ValidPair(prefix, suffix) <==>
      (prefix == 1 || prefix == 10 || prefix == 100) && (suffix == 5 * prefix || suffix == 10 * prefix)
    ensures ValidPair(prefix, suffix) <==>
      (prefix, suffix) in {(1, 5), (1, 10), (10, 50), (10, 100), (100, 500), (100, 1000)}
  {
  }

  /** The repetition limits: none for a count of zero or a non-digit, exactly one V, L or D,
      up to three I, X or C, and any positive number of M. */
  lemma ValidRepeatsLimits(digit: int, count: nat)
    ensures count == 0 || !IsDigit(digit) ==> !ValidRepeats(digit, count)
    ensures IsHalfDigit(digit) ==> (ValidRepeats(digit, count) <==> count == 1)
    ensures digit == 1 || digit == 10 || digit == 100 ==> (ValidRepeats(digit, count) <==> 1 <= count <= 3)
    ensures digit == 1000 ==> (ValidRepeats(digit, count) <==> count >= 1)
    ensures IsDigit(digit) ==> ValidRepeats(digit, 1)
  {
  }

  /** What a token the tokenizer can produce looks like, and what it is worth: canonical
      pairs are worth 4, 9, 40, 90, 400 or 900, and every token at least 1. */
  lemma WellFormedToken(t: Token)
    requires WellFormed(t)
    ensures IsDigit(Lead(t)) && IsDigit(Trail(t)) && Lead(t) <= Trail(t)
    ensures t.Pair? ==> t.prefix < t.suffix
    ensures t.Pair? ==> TokenValue(t) in {4, 9, 40, 90, 400, 900}
    ensures t.Repeat? ==> t.count >= 1
    ensures TokenValue(t) >= 1
    ensures Trail(t) <= 10 * Decade(t)
    ensures Lead(t) == Decade(t) || (Lead(t) == 5 * Decade(t) && IsHalfDigit(Lead(t)))
  {
    if t.Repeat? {
      assert t.digit * t.count >= t.count;
    }
  }

  /** Under valid_sequence the lead values strictly decrease, and the new token starts below
      where the previous one ended. */
  lemma SequenceDecreases(a: Token, b: Token)
    requires WellFormed(a) && WellFormed(b) && ValidSequence(a, b)
    ensures Lead(a) > Lead(b)
    ensures Trail(a) > Lead(b)
    ensures Decade(a) >= Decade(b)
  {
    WellFormedToken(a);
    WellFormedToken(b);
  }

  /** A token from a higher decade may always be followed by one from a lower decade. */
  lemma DecadeOrder(a: Token, b: Token)
    requires WellFormed(a) && WellFormed(b) && Decade(a) > Decade(b)
    ensures ValidSequence(a, b)
  {
    WellFormedToken(a);
    WellFormedToken(b);
  }

  /** The thirteen kinds of well-formed token, by the characters they are written with. */
  datatype Shape = IRun | IV | IX | V | XRun | XL | XC | L | CRun | CD | CM | D | MRun

  function ShapeOf(t: Token): Shape
    requires WellFormed(t)
  {
    match t
    case Pair(p, s) =>
      if p == 1 then (if s == 5 then IV else IX)
      else if p == 10 then (if s == 50 then XL else XC)
      else (if s == 500 then CD else CM)
    case Repeat(d, _) =>
      if d == 1 then IRun else if d == 5 then V else if d == 10 then XRun
      else if d == 50 then L else if d == 100 then CRun else if d == 500 then D else MRun
  }

  /** The follow table, row by row as the authors wrote it down beside valid_sequence. */
  function Followers(sh: Shape): set<Shape> {
    match sh
    case IRun => {}
    case IV => {}
    case IX => {}
    case V => {IRun}
    case XRun => {IRun, IV, V, IX}
    case XL => {IRun, IV, V, IX}
    case XC => {IRun, IV, V, IX}
    case L => {IRun, IV, V, IX, XRun}
    case CRun => {IRun, IV, V, IX, XRun, XL, L, XC}
    case CD => {IRun, IV, V, IX, XRun, XL, L, XC}
    case CM => {IRun, IV, V, IX, XRun, XL, L, XC}
    case D => {IRun, IV, V, IX, XRun, XL, L, XC, CRun}
    case MRun => {IRun, IV, V, IX, XRun, XL, L, XC, CRun, CD, D, CM}
  }

  /** The two rules of valid_sequence reproduce the follow table exactly. */
  lemma FollowTable(a: Token, b: Token)
    requires WellFormed(a) && WellFormed(b)
    ensures ValidSequence(a, b) <==> ShapeOf(b) in Followers(ShapeOf(a))
  {
  }
}
