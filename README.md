# Roman numeral parser (rome.c) in Dafny

This project models the parser of the roman-numerals repository. `parse_roman_number` reads one line of
text and returns its value as a Roman numeral, or the reason it rejects the line. The parser runs in
three stages:

1. The tokenizer (`consume_next_token`) groups characters into tokens. A token is either a subtractive
   *pair* such as IV or CM, or a *repeat*, a maximal run of one digit such as III or a lone D.
2. The sequence check (`valid_sequence`) decides whether a token may follow the previous one.
3. The driver adds up the token values (`token_value`) and stops at the first error.

Small helpers support the pipeline:

- `parse_roman_character` and `digit_to_roman` map between characters and values.
- `valid_pair` and `valid_repeats` hold the validity rules.
- `sprint_token` writes a token into a character buffer for the error message.

The modules follow the structure of `rome.c`:

| file | module | what it holds |
|---|---|---|
| `digits.dfy` | `Digits` | the character/value table: `CharValue`, `DigitToRoman`, and the method `ParseRomanCharacter` |
| `tokens.dfy` | `Tokens` | the `Token` tagged union, `TokenValue`, the rendering `Render`, and the in-place method `SprintToken` on an `array<char>` |
| `rules.dfy` | `Rules` | `ValidPair`, `ValidRepeats`, `ValidSequence`, and the follow table from the comment beside `valid_sequence` |
| `results.dfy` | `Results` | the structured error `Err`, which carries what each error message names, and `Result` |
| `tokenizer.dfy` | `Tokenizer` | the specification function `NextToken` and the method `ConsumeNextToken`, whose loop scans a run |
| `parser.dfy` | `Parser` | the specification function `Parse` and the method `ParseRomanNumber`, whose loop is the driver's `while` loop; also the token list `Lex`, the line `Line`, and the lemmas about accepted and rejected lines |
| `canonical.dfy` | `Canonical` | the standard numeral `ToRoman(n)`, and the proof that the parser accepts exactly the standard numerals of positive numbers |
| `report.dfy` | `Report` | the message of a sequence error: its two 32-character buffers, and the finding below |
| `examples.dfy` | `Examples` | results on particular lines |

How the C program maps to the model:

- **Input.** The input is a `seq<char>` holding a C string. `At(s, i)` reads NUL past the end of `s`. The
  line ends at the first NUL or newline (`IsEnd`).
- **Results.** The `struct result` returned by the C functions is `Result<T>`. `Success` carries the text's
  value; `Failure` carries an `Err`.
- **Methods and specifications.** Each imperative function is a method proved against a specification
  function: `ConsumeNextToken` against `NextToken`, and `ParseRomanNumber` against `Parse`. The lemmas are
  stated about the specification functions.

The central result is `Canonical.ParseAcceptsExactlyCanonical`. `parse_roman_number` succeeds with `v` if
and only if `v >= 1` and the line is the standard numeral of `v`. The standard numeral is one M per
thousand, then the hundreds, tens and units digits written in the usual subtractive notation. So the two
rules of `valid_sequence`, together with the pair and repeat limits, reject exactly the non-standard
numerals, and M may repeat without bound.

## Model

| member | source | states |
|---|---|---|
| Digits.CharValue | rome.c:270-296 | the value of a character is a digit value whose character is that character; a character outside I V X L C D M gets none |
| Digits.DigitToRoman | rome.c:298-317 | returns '?' exactly for integers that are not one of the seven digit values |
| Digits.ParseRomanCharacter | rome.c:270-296 | succeeds exactly on I V X L C D M, writing the digit value whose character is c; on failure the out value is left as it was |
| Digits.DigitRoundTrip | rome.c:270-317 | digit_to_roman followed by parse_roman_character gives back each of the seven digit values |
| Digits.NumeralCharacters | rome.c:270-296 | the characters that parse are exactly I V X L C D M |
| Tokens.Render | rome.c:171-196 | a run renders as count copies of its digit's character, a pair as its prefix character then its suffix character |
| Tokens.SprintToken | rome.c:171-196 | returns true exactly when len leaves room for the characters and a NUL; then it writes the token's characters and a NUL and changes no later cell; on false it changes nothing |
| Tokens.TokenValue | rome.c:160-169 | a run is worth digit times count, a pair suffix minus prefix; the values of well-formed tokens are stated by Rules.WellFormedToken |
| Rules.ValidPair | rome.c:233-247 | the suffix decides the one prefix allowed before it; the accepted pairs are stated by Rules.ValidPairIsSubtractive |
| Rules.ValidRepeats | rome.c:249-268 | the run limit per digit; the limits are stated by Rules.ValidRepeatsLimits |
| Rules.ValidSequence | rome.c:198-231 | after V, L or D the next token must end below it, otherwise it must start below; its consequences are stated by Rules.SequenceDecreases, Rules.DecadeOrder and Rules.FollowTable |
| Rules.ValidPairIsSubtractive | rome.c:233-247 | valid_pair holds exactly for (1,5), (1,10), (10,50), (10,100), (100,500) and (100,1000) |
| Rules.ValidRepeatsLimits | rome.c:249-268 | no count is valid for a count of 0 or a non-digit; V, L and D allow exactly 1; I, X and C allow 1 to 3; M allows any count of 1 or more; every digit allows 1 |
| Rules.WellFormedToken | rome.c:160-169 | a token the tokenizer can produce is worth at least 1, a canonical pair is worth 4, 9, 40, 90, 400 or 900, and its lead and trail are digit values with lead at most trail |
| Rules.SequenceDecreases | rome.c:198-231 | when valid_sequence accepts two well-formed tokens, the second starts below both the lead and the trail of the first |
| Rules.DecadeOrder | rome.c:198-231 | a token of a higher place may always be followed by a token of a lower place |
| Rules.FollowTable | rome.c:199-230 | the two rules of valid_sequence accept exactly the successors listed in the follow table in the comment |
| Tokenizer.RunLength | rome.c:145-152 | the run length counts consecutive copies of the character from position i on, and the next character differs |
| Tokenizer.NextToken | rome.c:107-158 | on success at least one character is consumed and the token lies within the input |
| Tokenizer.ConsumeNextToken | rome.c:107-158 | the method, including its run-scanning loop, returns exactly the specified token or error |
| Tokenizer.ScanShape | rome.c:107-158 | a scanned token is well-formed and consumes only numeral characters; a pair consumes 2 characters and ascends; a run's count is the characters consumed, which is the maximal run at the start position |
| Tokenizer.ScanBefore | rome.c:109-122 | a token never extends over a NUL or newline |
| Tokenizer.ScanRendersInput | rome.c:107-196 | the characters sprint_token writes for a scanned token are exactly the characters consumed |
| Tokenizer.ScanRendered | rome.c:107-158 | scanning the characters of a well-formed token gives that token back, when a run is followed by nothing or by a lower digit |
| Tokenizer.ScanFailures | rome.c:109-154 | each error arises exactly under its condition (a terminator at the start; a bad first or second character; an ascending non-canonical pair; a run valid_repeats rejects), and a bad second character is reported as the first one |
| Tokenizer.ScanErrorKinds | rome.c:107-158 | the tokenizer never reports an empty input or a sequence error |
| Tokenizer.ScanLocal | rome.c:107-158 | two inputs that agree up to a terminator tokenize alike: the tokenizer reads nothing beyond it |
| Tokenizer.ScanShift | rome.c:107-158 | what the tokenizer reads at a position depends only on the characters from there on |
| Parser.Parse | rome.c:65-105 | the result of parse_roman_number: empty input, the first token's error, or the driver's result; it is characterised by Parser.ParseSucceeds, Parser.ParseTokenizerError, Parser.ParseSequenceError and Canonical.ParseAcceptsExactlyCanonical |
| Parser.Drive | rome.c:83-104 | the driver loop from a position with the previous token and the tally; it is characterised by Parser.DriveSucceeds |
| Parser.ParseRomanNumber | rome.c:65-105 | the method, with the driver loop over prev, tally and the position, returns exactly the specified result |
| Parser.Line | rome.c:84 | the line is the prefix of the input before its first NUL or newline |
| Parser.DriveSucceeds | rome.c:83-104 | the loop succeeds exactly when the rest tokenizes, each token may follow the one before it, and the total is the tally plus the sum of the token values |
| Parser.ParseSucceeds | rome.c:65-105 | parse_roman_number succeeds with v exactly when the line tokenizes into at least one token, adjacent tokens pass valid_sequence, and v is the sum of the token values |
| Parser.LexWellFormed | rome.c:107-158 | every token read from a line is well-formed |
| Parser.LexRendersLine | rome.c:79-101 | the tokens read from position i, rendered back, are the characters of the line from i up to its terminator |
| Parser.LexOfRendered | rome.c:107-158 | tokenizing the rendering of a valid chain of well-formed tokens gives that chain back |
| Parser.ParsePositive | rome.c:71-104 | a successful result is at least 1 |
| Parser.ParseLeadsDecrease | rome.c:92-101 | on success the lead values of the tokens strictly decrease along the line |
| Parser.ParseEmptyAndEnd | rome.c:66-68 | the result is "input is empty" exactly when the first character is NUL, and the end-of-input error exactly when it is a newline |
| Parser.ParseLocal | rome.c:84 | two inputs that agree up to a terminator at a position above 0 parse alike |
| Parser.ParseIgnoresRest | rome.c:84 | whatever follows the first newline is ignored |
| Parser.ParseLine | rome.c:84 | a nonempty line parses as it would on its own |
| Parser.ParseReadsNumerals | rome.c:65-105 | on success the line is the rendering of its tokens and holds numeral characters only |
| Parser.ParseRendered | rome.c:65-105 | a well-formed token written out on its own parses to its value |
| Parser.ParseSequenceError | rome.c:84-97 | a sequence error names two well-formed tokens that valid_sequence rejects, written next to each other in the line; it is the first failure: the tokens up to the second one were read without error and each may follow the one before it |
| Parser.DriveReachesError | rome.c:84-101 | the loop reaches a sequence error only after reading, without error, a chain of tokens ending with the first token of the error |
| Parser.ParseTokenizerError | rome.c:75-89 | a failure other than a sequence error, on a line that does not start with a terminator, is the first error the tokenizer meets along the line |
| Parser.ParseLexError | rome.c:75-89 | conversely, when the tokenizer fails along a nonempty line, the parse fails with that error unless a sequence error comes first |
| Canonical.CanonValid | rome.c:7-15 | the tokens of the standard numeral of n form a valid chain of well-formed tokens whose values add up to n |
| Canonical.ChainIsCanonical | rome.c:198-231 | every valid chain of well-formed tokens is the standard token list of its sum: the rules leave no other way to write a number |
| Canonical.CanonRender | rome.c:171-196 | the standard tokens of n render as the standard numeral of n |
| Canonical.ParseToRoman | rome.c:65-105 | the standard numeral of every positive number parses to that number |
| Canonical.ParseAcceptsExactlyCanonical | rome.c:65-105 | parse_roman_number succeeds with v if and only if v >= 1 and the line is the standard numeral of v |
| Canonical.ToRomanInjective | rome.c:65-105 | distinct positive numbers have distinct standard numerals |
| Report.Formatted | rome.c:171-196 | a buffer of len characters holds a token's text exactly when sprint_token's size test passes, and the text is then shorter than len |
| Report.ReportAsWritten | rome.c:92-97 | the sequence-error branch as written: each of its two 32-character buffers holds what sprint_token writes into 32 characters, or nothing determined when the token does not fit |
| Report.LongRunAfterPair | rome.c:92-97 | for every k >= 1, CM followed by k M is a sequence error whose second token does not fit a buffer of k characters or fewer |
| Report.UnwrittenBuffer | rome.c:93-96 | the line CM followed by 32 M is a sequence error whose second buffer sprint_token leaves unwritten |
| Report.FourCharacters | rome.c:45-46 | four characters fit every well-formed token except a run of four or more M |
| Report.ReportSequenceError | rome.c:92-97 | with each buffer sized to its token, the message quotes both tokens' characters |
| Report.ReportQuotesLine | rome.c:92-97 | with the corrected buffers, every sequence error quotes two pieces of text that stand next to each other in the rejected line |
| Examples.AcceptedYear | rome.c:65-105 | "MCMXCIV" parses to 1994 |
| Examples.AcceptedLargestStandard | rome.c:65-105 | "MMMCMXCIX" parses to 3999 |
| Examples.AcceptedSmall | rome.c:65-105 | "XLII" parses to 42 |
| Examples.AcceptedLine | rome.c:84 | "XLII" followed by a newline parses to 42 |
| Examples.AcceptedManyThousands | rome.c:263-264 | "MMMMM" parses to 5000 |
| Examples.EmptyLines | rome.c:66-68 | "" fails as empty input, and a lone newline fails with the tokenizer's end-of-input error |
| Examples.RepeatErrors | rome.c:153-155 | "IIII", "VV" and "LL" fail as too many repeats |
| Examples.PairErrors | rome.c:132-134 | "XM", "IC" and "VX" fail as invalid pairs |
| Examples.SequenceErrors | rome.c:92-97 | "IVI", "VIV", "IIX" and "IVIV" fail naming the two offending tokens |
| Examples.CharacterErrors | rome.c:114-127 | non-numerals fail as invalid characters, reported as the first character of the token; an over-long run before them is reported first |
| Examples.StandardNumerals | rome.c:7-15 | the standard numeral of 3999 is MMMCMXCIX |
| Examples.StandardYear | rome.c:7-15 | the standard numeral of 1994 is MCMXCIV |

## Left out

- `main.c` is not part of this model. Its loop reads lines from standard input and prints results, which is
  I/O only.
- `result.c` is not part of this model. Its heap-allocated messages, the 255-byte message cap and the
  printf-style formatting are left out. `Err` carries the data each message names (characters, a count,
  two tokens) instead of formatted text.
- C `int` overflow is not modelled. The tally, `digit * count` and the run length are unbounded integers,
  so a line of more than about two million M is out of this model's scope.
- Tokenizer.ConsumeNextToken: the re-parse of `*str` inside the run loop (rome.c:148-150) is not modelled.
  That character was already accepted, so the branch is unreachable.
- The `assert(false)` defaults of the two switches on the token type (rome.c:166-167, rome.c:193-194) are
  not modelled. A Dafny datatype has no third tag.
- The `assert(res.value > 0)` at rome.c:90 is not a statement of the model. It follows from
  `NextToken`'s ensures that at least one character is consumed.
- The out-parameters `*t` of `consume_next_token` and `*out` of `parse_roman_character` become return
  values.
- Rules.ValidRepeats is only reached with positive counts. The model's token counts are natural numbers,
  so the source's acceptance of negative counts for I, X, C and M is not stated.
- The model's characters stand for the bytes of the C string. Which lines are accepted is the same, but
  for a multi-byte UTF-8 character the reported character differs. For the input "é", rome.c:115 reports
  the byte 0xC3, while the model reports `InvalidCharacter('é')`.
- Report.ReportAsWritten models an unwritten buffer as `None`. What C would print from that uninitialised
  buffer cannot be determined, so it is not modelled.

How the code treats two edge cases:

- A non-numeral does not fail inside a run. The run loop at rome.c:147-151 stops at the first character
  that differs, and the next token reports that character. An over-long run before it is reported
  first: "IIIIZ" fails as too many repeats (`Examples.CharacterErrors`).
- When the second character of a token is not a numeral, the code reports the first character
  (rome.c:125-126), and so does the model (`Tokenizer.ScanFailures`).

## Findings

| source | as written | input that shows it | evidently intended | confidence | as-written member | corrected member |
|---|---|---|---|---|---|---|
| rome.c:93-96 | The sequence-error message formats both tokens into 32-character buffers and ignores the result of `sprint_token`. A run of 32 or more M does not fit, so that buffer is printed without ever being written. The comment at rome.c:45-46 says four characters fit any token, which an M run of four already contradicts. | "CM" followed by 32 "M" | both tokens of every sequence error appear in the message | not executed | Report.UnwrittenBuffer | Report.ReportQuotesLine |
