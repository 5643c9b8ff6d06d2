/**
  Rating resolution and the rating filter: the players' ratings are read from a game's tags, with
  a default for a missing tag, and a target's thresholds decide whether the game counts.
*/
module Ratings {

  /** The rating assumed for a player whose rating tag is missing. */
  const DefaultRating: int := 1200

  /** The four thresholds of a target; a threshold that is not positive is not configured. */
  datatype Rating = Rating(one: int, white: int, black: int, average: int)

  datatype Filter = Filter(rating: Rating)

  /** The zero value of `Rating`: nothing configured, so nothing is filtered. */
  const NoThresholds: Rating := Rating(0, 0, 0, 0)

  // Decimal integers, as the standard library's Atoi reads and Itoa writes them

  predicate IsDigit(c: char) {
    '0' <= c <= '9'
  }

  /** A non-empty run of decimal digits. */
  predicate IsDigits(s: string) {
    |s| > 0 && forall i :: 0 <= i < |s| ==> IsDigit(s[i])
  }

  /** An optional sign followed by decimal digits: the syntax Atoi accepts. */
  predicate IsInteger(s: string) {
    IsDigits(s) || (|s| >= 2 && (s[0] == '+' || s[0] == '-') && IsDigits(s[1..]))
  }

  function DigitValue(c: char): (d: nat)
    requires IsDigit(c)
    ensures d < 10
  {
    c as int - '0' as int
  }

  function DigitChar(d: nat): (c: char)
    requires d < 10
    ensures IsDigit(c) && DigitValue(c) == d
  {
    ('0' as int + d) as char
  }

  /** The value of a run of digits, most significant first. */
  function DigitsValue(s: string): nat
    requires forall i :: 0 <= i < |s| ==> IsDigit(s[i])
  {
    if s == [] then 0 else DigitsValue(s[..|s| - 1]) * 10 + DigitValue(s[|s| - 1])
  }

  /** The decimal digits of a natural number, without leading zeros. */
  function Decimal(n: nat): (s: string)
    ensures IsDigits(s)
  {
    if n < 10 then [DigitChar(n)] else Decimal(n / 10) + [DigitChar(n % 10)]
  }

  /** A decimal integer as Itoa writes it. */
  function Itoa(n: int): (s: string)
    ensures IsInteger(s)
  {
    if n < 0 then "-" + Decimal(-n) else Decimal(n)
  }

  /**
    Atoi: the value and whether the text was an integer. On a text that is not one the value is 0,
    which is what the program keeps, because it discards the error.
  */
  function Atoi(s: string): (r: (int, bool))
    ensures r.1 <==> IsInteger(s)
    ensures !r.1 ==> r.0 == 0
    ensures r.1 && s[0] != '-' ==> r.0 >= 0
    ensures r.1 && s[0] == '-' ==> r.0 <= 0
  {
    if IsDigits(s) then (DigitsValue(s), true)
    else if |s| >= 2 && s[0] == '+' && IsDigits(s[1..]) then (DigitsValue(s[1..]), true)
    else if |s| >= 2 && s[0] == '-' && IsDigits(s[1..]) then (-(DigitsValue(s[1..]) as int), true)
    else (0, false)
  }

  lemma {:induction false} DecimalValue(n: nat)
    ensures DigitsValue(Decimal(n)) == n
  {
    if n >= 10 {
      var s := Decimal(n);
      assert s[..|s| - 1] == Decimal(n / 10);
      DecimalValue(n / 10);
    }
  }

  /** Reading back what Itoa writes gives the number again. */
  lemma AtoiItoa(n: int)
    ensures Atoi(Itoa(n)) == (n, true)
  {
    if n < 0 {
      assert Itoa(n)[1..] == Decimal(-n);
      DecimalValue(-n);
    } else {
      DecimalValue(n);
    }
  }

  /** A leading plus sign changes nothing. */
  lemma AtoiPlus(n: nat)
    ensures Atoi("+" + Decimal(n)) == (n, true)
  {
    assert ("+" + Decimal(n))[1..] == Decimal(n);
    DecimalValue(n);
  }

  // Rating resolution

  /**
    The rating of the player whose tag is `name`: the default when the game has no such tag,
    otherwise what Atoi makes of the tag's value.
  */
  function ResolveRating(tags: map<string, string>, name: string): (r: int)
    ensures name !in tags ==> r == DefaultRating
    ensures name in tags && !IsInteger(tags[name]) ==> r == 0
  {
    if name in tags then Atoi(tags[name]).0 else DefaultRating
  }

  /** A tag holding a decimal integer gives that integer. */
  lemma ResolveInteger(tags: map<string, string>, name: string, n: int)
    ensures ResolveRating(tags[name := Itoa(n)], name) == n
  {
    AtoiItoa(n);
  }

  // The filter

  /** Integer halving as Go's `/` does it: the quotient is truncated toward zero. */
  function HalfTowardZero(n: int): (q: int)
    ensures n >= 0 ==> 2 * q <= n < 2 * q + 2
    ensures n < 0 ==> 2 * q - 2 < n <= 2 * q
  {
    if n >= 0 then n / 2 else -((-n) / 2)
  }

  /** The filter's checks in the program's order; a failed check vetoes the target. */
  function Admits(r: Rating, white: int, black: int): (ok: bool)
    ensures ok <==> MeetsThresholds(r, white, black)
  {
    if r == NoThresholds then true
    else if r.average > 0 && HalfTowardZero(white + black) < r.average then false
    else if r.one > 0 && white < r.one && black < r.one then false
    else if r.white > 0 && white < r.white then false
    else if r.black > 0 && black < r.black then false
    else true
  }

  /** Every configured threshold is met; an equal rating meets its threshold. */
  predicate MeetsThresholds(r: Rating, white: int, black: int) {
    && (r.average > 0 ==> white + black >= 2 * r.average)
    && (r.one > 0 ==> white >= r.one || black >= r.one)
    && (r.white > 0 ==> white >= r.white)
    && (r.black > 0 ==> black >= r.black)
  }

  /** Against a positive threshold, truncated and floored halving give the same verdict. */
  lemma AverageRoundingIrrelevant(sum: int, average: int)
    requires average > 0
    ensures (HalfTowardZero(sum) < average) <==> (sum / 2 < average)
  {
  }

  /** With nothing configured every pair of ratings passes. */
  lemma NoThresholdsAdmitAll(white: int, black: int)
    ensures Admits(NoThresholds, white, black)
  {
  }

  /** `r` is `s` with some thresholds raised. */
  predicate Raises(r: Rating, s: Rating) {
    r.one <= s.one && r.white <= s.white && r.black <= s.black && r.average <= s.average
  }

  /** Raising thresholds never turns a veto into a pass. */
  lemma AdmitsAntitone(r: Rating, s: Rating, white: int, black: int)
    requires Raises(r, s) && Admits(s, white, black)
    ensures Admits(r, white, black)
  {
  }
}
