# tabiya: position search over chess games, modelled in Dafny

tabiya scans a database of chess games for games that pass through configured positions. Each
position of each game, in Forsyth-Edwards Notation (FEN), is simplified to its board, side to move,
castling rights and en-passant square, dropping the two move counters. A configured target matches
when its own FEN string begins with that simplified string. A target may carry a rating filter,
checked against the players' ratings read from the game's `WhiteElo` and `BlackElo` tags. The
first position and target that qualify print the game, and the scan moves on to the next game.

The model has four modules:

- `Wrappers` (wrappers.dfy): `Option` and `Result`.
- `Fen` (fen.dfy): `simplify`. The regular expression is written out as a sequence of fields
  (`FenPattern`), each a character class with a repetition bound and a delimiter. `MatchFields`
  is a hand-written recogniser for such patterns, proved sound and complete against the
  declarative language `{Render(ps) | Fits(ps, FenPattern)}`. Case-insensitive matching is
  modelled in the classes: `W`, `B`, `K`, `Q`, `A`-`H` and upper-case pieces are accepted, and so
  is U+212A KELVIN SIGN, which Go's case folding puts in the orbit of `k`. Whitespace is Go's
  `\s`: tab, newline, form feed, carriage return and space. Digits are ASCII `0`-`9`. The pattern
  does not check that a rank adds up to eight files, and neither does the model.
- `Ratings` (ratings.dfy): `DefaultRating`, the `Rating` and `Filter` types, Atoi, Go's division
  truncating toward zero, rating resolution and the filter's checks.
- `Scan` (scan.dfy): the `Position`, `Config` and `Game` types, the prefix test, a functional
  specification of the scan (`FirstTaker`, `Judge`, `Run`), and the imperative `ScanGames`. That
  method keeps the program's three nested loops and its labelled `continue outer`, and it is
  proved equal to the specification.

A game is its sequence of position strings (what the chess library produces for each ply) and a
map from tag name to value. A missing key is a tag the game does not have. The program's output
is modelled as the sequence of indices of the printed games. Its panic on an invalid FEN is
modelled as a `Report` flag that ends the run; the games printed before it are kept.

An unparsable rating tag gives 0, not the default 1200: the program discards Atoi's error and keeps
its zero result (main.go:107, main.go:110). The model follows the code. Likewise the pattern makes
both move counters mandatory, so a position without them is refused.

## Model

| member | source | states |
|---|---|---|
| `Fen.Lex` | main.go:39 | the result is the longest prefix of the text whose characters all lie in the class |
| `Fen.MatchFields` | main.go:39-40 | a parse the recogniser returns fits the pattern field by field and renders back to exactly the input text |
| `Fen.MatchRender` | main.go:39-40 | every text of the pattern's language is recognised, and the recogniser returns the very parse it was rendered from |
| `Fen.ParseUnique` | main.go:43 | a text has at most one parse, so the captured group is well defined |
| `Fen.Simplify` | main.go:38-44 | a refusal carries the message "Invalid FEN"; a success returns the captured fields of a parse of the input |
| `Fen.SimplifyAcceptsExactly` | main.go:39-42 | simplify succeeds if and only if the text is eight ranks, side, castling, en-passant square and two counters, single-whitespace separated, with the pattern's classes and bounds |
| `Fen.SimplifyRendered` | main.go:43 | on a text of the pattern the result is the board, side, castling and en-passant fields with their separators |
| `Fen.SimplifyStripsCounters` | main.go:37-43 | the result is a prefix of the input, and the rest of the input is one whitespace, digits, one whitespace, digits |
| `Fen.SimplifyRejectsOwnOutput` | main.go:39-42 | simplify refuses its own result, which has no counters left |
| `Ratings.Atoi` | main.go:107 | it succeeds exactly on an optional sign followed by decimal digits; on failure the value is 0; the sign decides the sign of the value |
| `Ratings.AtoiItoa` | main.go:107 | reading back the decimal text of any integer gives that integer |
| `Ratings.AtoiPlus` | main.go:107 | a leading plus sign is accepted and changes nothing |
| `Ratings.ResolveRating` | main.go:105-111 | a missing tag gives 1200; a tag that is not an integer gives 0 |
| `Ratings.ResolveInteger` | main.go:106-111 | a tag holding the decimal text of an integer gives that integer |
| `Ratings.HalfTowardZero` | main.go:113 | the quotient by two truncated toward zero, fixed by the remainder's range for either sign |
| `Ratings.Admits` | main.go:104-124 | the filter passes if and only if every positive threshold is met: twice the average at most the sum, one of the two ratings at least `One`, white at least `White`, black at least `Black`; equality passes |
| `Ratings.AverageRoundingIrrelevant` | main.go:113 | against a positive average threshold, truncated and floored halving give the same verdict |
| `Ratings.NoThresholdsAdmitAll` | main.go:104 | the all-zero filter passes every pair of ratings |
| `Ratings.AdmitsAntitone` | main.go:113-123 | raising thresholds never turns a failing filter into a passing one |
| `Scan.HasPrefix` | main.go:102 | true exactly when the target is at least as long and agrees character by character on the simplified position |
| `Scan.OwnFenMatches` | main.go:100-102 | a target holding a position's full FEN matches that position |
| `Scan.CountersIrrelevant` | main.go:100-102 | two valid positions whose captured text (board, side, castling, en-passant square) is the same match each other, whatever their counters and the whitespace before them |
| `Scan.ShortTargetNeverMatches` | main.go:102 | a target shorter than the simplified position never matches |
| `Scan.MatchIsCaseSensitive` | main.go:102 | a target with `w` does not match a position whose side is written `W` |
| `Scan.Takes` | main.go:102-124 | a target takes a game at a simplified position exactly when its string begins with that position and the resolved ratings meet every positive threshold of its filter |
| `Scan.TargetTakes` | main.go:102-125 | the imperative test of one target, reading the tags only when a threshold is set, passes exactly when the prefix holds and the filter admits the resolved ratings |
| `Scan.FirstTaker` | main.go:101-131 | the result is the first target from the given index on that takes the game, and none is returned only if no such target exists |
| `Scan.Judge` | main.go:97-133 | an emitted pair qualifies, no earlier position and no earlier target at that position qualifies, and every earlier position was valid; a panic is at the first invalid position; exhaustion means all positions valid and no pair qualifies |
| `Scan.GameVerdict` | main.go:97-133 | a game is printed only for a valid position and a target that takes it there; a panic is at a position that is not a valid FEN |
| `Scan.VerdictOfValidGame` | main.go:97-131 | for a game of valid positions: no panic, printed if and only if some pair qualifies, and the pair chosen is the first in position-major, target-minor order |
| `Scan.Run` | main.go:93-134 | the output of the outer loop over the games' verdicts: only games whose verdict emits are printed, and a panic ends the run |
| `Scan.RunOrdered` | main.go:93-134 | printed indices are strictly increasing and in range: every game is printed at most once and in input order |
| `Scan.RunEmits` | main.go:93-134 | game `i` is printed exactly when its verdict emits it and no earlier game panicked |
| `Scan.RunPanics` | main.go:40-42 | the run panics exactly when some game reaches an invalid position before it is printed |
| `Scan.RunPanickedPrefix` | main.go:41 | after a panic, later games change nothing |
| `Scan.ScanPrintsQualifyingGames` | main.go:93-134 | when all positions are valid, there is no panic and game `i` is printed if and only if some position and some target qualify |
| `Scan.UnfilteredIgnoresTags` | main.go:104-111 | when no target has a threshold, a game's verdict does not depend on its tags |
| `Scan.AverageEqualPasses` | main.go:113 | ratings 2200 and 1800 meet an average of 2000; 2200 and 1700 do not |
| `Scan.UnratedMeetsDefault` | main.go:105-116 | with no rating tags both players count as 1200, which meets `One` = 1200 and fails `One` = 1201 |
| `Scan.UnparsableTagIsZero` | main.go:106-119 | a `WhiteElo` tag that is not an integer counts as 0 and fails `White` = 1, while a missing one passes |
| `Scan.ScanGames` | main.go:93-134 | the imperative scan prints, and panics, exactly as the specification `Run` over the games' verdicts |

## Left out

- Command-line flags, `app.Run` and `log.Fatal` (main.go:46-70, main.go:140-142): process plumbing.
- Opening and reading the two files, with their exit messages (main.go:72-83): I/O.
- YAML decoding of the configuration (main.go:85-89): a foreign library. The model takes a `Config` already built.
- The chess library (main.go:91-110): `NewScanner`, `Scan`/`Next`, `Positions`, `String` and `GetTagPair`. A game is given as its position strings and its tags. PGN read errors are not modelled.
- Printing the game with `fmt.Println` (main.go:128): emission is appending the game's index.
- The panic itself (main.go:41): only its effect is modelled, the end of the run with the output so far. The stack trace and exit status are not.
- Byte strings: Go strings are bytes, and the regular expression decodes them as UTF-8. The model's strings are Unicode scalar values, so invalid UTF-8 cannot be written. Invalid bytes match no class of the pattern, so such a text is refused in either case. Prefix tests agree with Go's byte comparison, because UTF-8 is a prefix-free code.
- Ratings.Atoi: does not model the range error for values outside the 64-bit integer range, where Go returns the clamped bound; integers are unbounded.
- Ratings.Admits: does not model overflow of `white+black` in Go's 64-bit `int`; the sum is unbounded.
- Recompiling the regular expression on each call (main.go:39): a cost, not a behaviour.
