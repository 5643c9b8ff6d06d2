/**
  The position normaliser: a position in Forsyth-Edwards Notation is checked against a fixed,
  case-insensitive pattern and its two move counters are dropped.

  The pattern is a sequence of fields. Each field is a run of characters from one class, with a
  repetition bound, followed by a delimiter: a slash, one whitespace character, or nothing (the end
  of the text). Because no class contains a slash or a whitespace character, a field is always the
  longest run of its class, and the pattern is recognised by a left-to-right scan without
  backtracking.
*/
module Fen {
  import opened Wrappers

  /** The character classes of the pattern, as case-insensitive matching sees them. */
  datatype CharClass =
    | BackRank     // [rnbqk1-8]: the first and last rank, where no pawn may stand
    | MiddleRank   // [rnbqkp1-8]
    | SideToMove   // [wb]
    | Castling     // [kq-]
    | EnPassant    // [a-h1-8-]
    | Digit        // \d

  /** How many characters a field holds: `{lo,hi}` or `+`. */
  datatype Repeat = Between(lo: nat, hi: nat) | OneOrMore

  /** What must follow a field. */
  datatype Delim = Slash | Space | Nothing

  datatype Field = Field(chars: CharClass, repeat: Repeat, delim: Delim)

  /** One recognised field: its text and the delimiter text that followed it. */
  datatype Piece = Piece(text: string, delim: string)

  /**
    Case-insensitive matching folds a letter to every character in its simple case-folding
    orbit; for `k` that orbit also holds U+212A KELVIN SIGN.
  */
  const KelvinSign: char := '\U{212A}'

  predicate IsPieceLetter(c: char) {
    c in "rnbqkRNBQK" || c == KelvinSign
  }

  predicate InClass(c: char, k: CharClass) {
    match k
    case BackRank => IsPieceLetter(c) || '1' <= c <= '8'
    case MiddleRank => IsPieceLetter(c) || c == 'p' || c == 'P' || '1' <= c <= '8'
    case SideToMove => c in "wbWB"
    case Castling => c in "kqKQ-" || c == KelvinSign
    case EnPassant => 'a' <= c <= 'h' || 'A' <= c <= 'H' || '1' <= c <= '8' || c == '-'
    case Digit => '0' <= c <= '9'
  }

  /** The whitespace class of the pattern: tab, newline, form feed, carriage return and space. */
  predicate IsSpace(c: char) {
    c == '\t' || c == '\n' || c == '\U{C}' || c == '\r' || c == ' '
  }

  predicate AllIn(s: string, k: CharClass) {
    forall i :: 0 <= i < |s| ==> InClass(s[i], k)
  }

  predicate FitsRepeat(n: nat, r: Repeat) {
    match r
    case Between(lo, hi) => lo <= n <= hi
    case OneOrMore => 1 <= n
  }

  predicate FitsDelim(d: string, k: Delim) {
    match k
    case Slash => d == "/"
    case Space => |d| == 1 && IsSpace(d[0])
    case Nothing => d == ""
  }

  predicate FitsField(p: Piece, f: Field) {
    FitsRepeat(|p.text|, f.repeat) && AllIn(p.text, f.chars) && FitsDelim(p.delim, f.delim)
  }

  /** `ps` is a parse of some text against `pat`, field by field. */
  predicate Fits(ps: seq<Piece>, pat: seq<Field>) {
    |ps| == |pat| && forall i :: 0 <= i < |ps| ==> FitsField(ps[i], pat[i])
  }

  /** The text a parse was read from. */
  function Render(ps: seq<Piece>): string {
    if ps == [] then "" else ps[0].text + ps[0].delim + Render(ps[1..])
  }

  /**
    The position pattern: eight ranks separated by slashes, the side to move, the castling rights,
    the en-passant square, the half-move clock and the full-move number, the last six separated by
    single whitespace characters and the whole anchored at both ends.
  */
  const FenPattern: seq<Field> := [
    Field(BackRank, Between(1, 8), Slash),
    Field(MiddleRank, Between(1, 8), Slash),
    Field(MiddleRank, Between(1, 8), Slash),
    Field(MiddleRank, Between(1, 8), Slash),
    Field(MiddleRank, Between(1, 8), Slash),
    Field(MiddleRank, Between(1, 8), Slash),
    Field(MiddleRank, Between(1, 8), Slash),
    Field(BackRank, Between(1, 8), Space),
    Field(SideToMove, Between(1, 1), Space),
    Field(Castling, Between(1, 4), Space),
    Field(EnPassant, Between(1, 2), Space),
    Field(Digit, OneOrMore, Space),
    Field(Digit, OneOrMore, Nothing)
  ]

  /** The captured part of a position: the first eleven fields, up to the en-passant square. */
  const Captured: nat := 11

  /** The texts the pattern accepts. */
  ghost predicate IsFenLine(s: string) {
    exists ps :: Fits(ps, FenPattern) && Render(ps) == s
  }

  /** The captured group of a parse: everything before the delimiter of the en-passant field. */
  function Head(ps: seq<Piece>): string
    requires |ps| >= Captured
  {
    Render(ps[..Captured - 1]) + ps[Captured - 1].text
  }

  /** The longest prefix of `s` made of characters of class `k`. */
  function Lex(s: string, k: CharClass): (t: string)
    ensures t <= s && AllIn(t, k)
    ensures |t| == |s| || !InClass(s[|t|], k)
  {
    if s != [] && InClass(s[0], k) then [s[0]] + Lex(s[1..], k) else ""
  }

  /** The delimiter of kind `k` at the front of `s`, if there is one. */
  function LexDelim(s: string, k: Delim): (r: Option<string>)
    ensures r.Some? ==> r.value <= s && FitsDelim(r.value, k)
  {
    match k
    case Slash => if s != [] && s[0] == '/' then Some("/") else None
    case Space => if s != [] && IsSpace(s[0]) then Some(s[..1]) else None
    case Nothing => Some("")
  }

  /** Recognises `s` against `pat`, returning the parse when it matches. */
  function MatchFields(s: string, pat: seq<Field>): (r: Option<seq<Piece>>)
    ensures r.Some? ==> Fits(r.value, pat) && Render(r.value) == s
    decreases pat
  {
    if pat == [] then
      if s == "" then Some([]) else None
    else
      var t := Lex(s, pat[0].chars);
      var d := LexDelim(s[|t|..], pat[0].delim);
      if !FitsRepeat(|t|, pat[0].repeat) || d.None? then None
      else
        var suffix := s[|t| + |d.value|..];
        assert s == t + d.value + suffix by {
          assert s[..|t|] == t && s[|t|..][..|d.value|] == d.value;
          assert s[|t|..] == d.value + suffix;
        }
        var rest := MatchFields(suffix, pat[1..]);
        if rest.None? then None
        else
          var p := Piece(t, d.value);
          ConsFits(p, rest.value, pat);
          assert ([p] + rest.value)[1..] == rest.value;
          Some([p] + rest.value)
  }

  lemma ConsFits(p: Piece, ps: seq<Piece>, pat: seq<Field>)
    requires pat != [] && FitsField(p, pat[0]) && Fits(ps, pat[1..])
    ensures Fits([p] + ps, pat)
    ensures Render([p] + ps) == p.text + p.delim + Render(ps)
  {
    assert ([p] + ps)[1..] == ps;
  }

  /**
    Strips the two move counters from a position. A text the pattern rejects is refused with the
    message "Invalid FEN", where the program panics.
  */
  function Simplify(fen: string): (r: Result<string>)
    ensures r.Err? ==> r.message == "Invalid FEN"
    ensures r.Ok? ==> exists ps :: Fits(ps, FenPattern) && Render(ps) == fen && r.value == Head(ps)
  {
    match MatchFields(fen, FenPattern)
    case Some(ps) => Ok(Head(ps))
    case None => Err("Invalid FEN")
  }

  // Completeness of the recogniser

  /** A delimiter is never part of a field, whatever the field's class. */
  lemma DelimOutsideClasses(c: char, k: CharClass)
    requires c == '/' || IsSpace(c)
    ensures !InClass(c, k)
  {
  }

  lemma {:induction false} LexMaximal(x: string, y: string, k: CharClass)
    requires AllIn(x, k)
    requires y == [] || !InClass(y[0], k)
    ensures Lex(x + y, k) == x
  {
    if x != [] {
      assert (x + y)[0] == x[0];
      assert (x + y)[1..] == x[1..] + y;
      LexMaximal(x[1..], y, k);
    } else {
      assert x + y == y;
    }
  }

  lemma LexDelimFits(d: string, rest: string, k: Delim)
    requires FitsDelim(d, k)
    ensures LexDelim(d + rest, k) == Some(d)
  {
    if k == Space {
      assert (d + rest)[..1] == d;
    }
  }

  /** Only the last field of a pattern may end without a delimiter. */
  predicate DelimitedButLast(pat: seq<Field>) {
    forall i :: 0 <= i < |pat| - 1 ==> pat[i].delim != Nothing
  }

  /** One step of the recogniser, on a text whose first field and delimiter are known. */
  lemma MatchStep(s: string, pat: seq<Field>, t: string, d: string, rest: string, ps: seq<Piece>)
    requires pat != [] && s == t + d + rest
    requires Lex(s, pat[0].chars) == t && FitsRepeat(|t|, pat[0].repeat)
    requires LexDelim(s[|t|..], pat[0].delim) == Some(d)
    requires MatchFields(rest, pat[1..]) == Some(ps)
    ensures MatchFields(s, pat) == Some([Piece(t, d)] + ps)
  {
    assert s[|t| + |d|..] == rest;
  }

  /** The recogniser finds every parse: reading back a rendered parse gives that parse. */
  lemma {:induction false} MatchRender(ps: seq<Piece>, pat: seq<Field>)
    requires Fits(ps, pat) && DelimitedButLast(pat)
    ensures MatchFields(Render(ps), pat) == Some(ps)
  {
    if pat != [] {
      var p, tail := ps[0], Render(ps[1..]);
      var next := p.delim + tail;
      assert Render(ps) == p.text + next;
      if p.delim != [] {
        DelimOutsideClasses(p.delim[0], pat[0].chars);
      }
      LexMaximal(p.text, next, pat[0].chars);
      assert Render(ps)[|p.text|..] == next;
      LexDelimFits(p.delim, tail, pat[0].delim);
      assert Fits(ps[1..], pat[1..]);
      assert DelimitedButLast(pat[1..]);
      MatchRender(ps[1..], pat[1..]);
      MatchStep(Render(ps), pat, p.text, p.delim, tail, ps[1..]);
      assert [p] + ps[1..] == ps;
    }
  }

  /** A text has at most one parse against a pattern whose fields are delimited. */
  lemma ParseUnique(ps: seq<Piece>, qs: seq<Piece>, pat: seq<Field>)
    requires Fits(ps, pat) && Fits(qs, pat) && DelimitedButLast(pat)
    requires Render(ps) == Render(qs)
    ensures ps == qs
  {
    MatchRender(ps, pat);
    MatchRender(qs, pat);
  }

  // The normaliser

  /** `Simplify` succeeds exactly on the texts of the position pattern. */
  lemma SimplifyAcceptsExactly(fen: string)
    ensures Simplify(fen).Ok? <==> IsFenLine(fen)
  {
    if IsFenLine(fen) {
      var ps: seq<Piece> :| Fits(ps, FenPattern) && Render(ps) == fen;
      MatchRender(ps, FenPattern);
    }
  }

  /** On a text of the pattern, `Simplify` returns the captured fields of its parse. */
  lemma SimplifyRendered(ps: seq<Piece>)
    requires Fits(ps, FenPattern)
    ensures Simplify(Render(ps)) == Ok(Head(ps))
  {
    MatchRender(ps, FenPattern);
  }

  lemma {:induction false} RenderAppend(ps: seq<Piece>, qs: seq<Piece>)
    ensures Render(ps + qs) == Render(ps) + Render(qs)
  {
    if ps != [] {
      assert (ps + qs)[1..] == ps[1..] + qs;
      RenderAppend(ps[1..], qs);
    } else {
      assert ps + qs == qs;
    }
  }

  /** The part of a position after the captured group: one whitespace, digits, one whitespace, digits. */
  ghost predicate IsCounters(t: string) {
    exists i :: 2 <= i < |t| - 1 && IsSpace(t[0]) && IsSpace(t[i]) && AllIn(t[1..i], Digit) && AllIn(t[i + 1..], Digit)
  }

  /** A position's parse splits after the captured group: delimiter, counter, delimiter, counter. */
  lemma CapturedSplit(ps: seq<Piece>)
    requires |ps| == 13 && ps[12].delim == ""
    ensures Render(ps) == Head(ps) + (ps[10].delim + ps[11].text + ps[11].delim + ps[12].text)
  {
    assert ps == ps[..Captured - 1] + ps[Captured - 1..];
    RenderAppend(ps[..Captured - 1], ps[Captured - 1..]);
    var t := ps[Captured - 1..];
    assert t[1..][1..][1..] == [];
    assert Render(t[1..][1..]) == ps[12].text + ps[12].delim;
    assert Render(t[1..]) == ps[11].text + ps[11].delim + (ps[12].text + ps[12].delim);
  }

  lemma CountersOfParse(ps: seq<Piece>)
    requires Fits(ps, FenPattern)
    ensures Head(ps) <= Render(ps) && IsCounters(Render(ps)[|Head(ps)|..])
  {
    assert FitsField(ps[10], FenPattern[10]) && FitsField(ps[11], FenPattern[11]) && FitsField(ps[12], FenPattern[12]);
    CapturedSplit(ps);
    var tail := ps[10].delim + ps[11].text + ps[11].delim + ps[12].text;
    assert Render(ps)[|Head(ps)|..] == tail;
    var i := 1 + |ps[11].text|;
    assert tail[1..i] == ps[11].text;
    assert tail[i + 1..] == ps[12].text;
  }

  /** The result of `Simplify` is a prefix of its input, and what it drops is exactly the two counters. */
  lemma SimplifyStripsCounters(fen: string)
    requires Simplify(fen).Ok?
    ensures Simplify(fen).value <= fen
    ensures IsCounters(fen[|Simplify(fen).value|..])
  {
    var ps: seq<Piece> :| Fits(ps, FenPattern) && Render(ps) == fen && Simplify(fen).value == Head(ps);
    CountersOfParse(ps);
  }

  /** The number of whitespace characters in a text. */
  function Spaces(s: string): (n: nat)
    ensures n <= |s|
  {
    if s == [] then 0 else (if IsSpace(s[0]) then 1 else 0) + Spaces(s[1..])
  }

  lemma {:induction false} SpacesAppend(a: string, b: string)
    ensures Spaces(a + b) == Spaces(a) + Spaces(b)
  {
    if a != [] {
      assert (a + b)[1..] == a[1..] + b;
      SpacesAppend(a[1..], b);
    } else {
      assert a + b == b;
    }
  }

  lemma {:induction false} SpacesOfClass(s: string, k: CharClass)
    requires AllIn(s, k)
    ensures Spaces(s) == 0
  {
    if s != [] {
      DelimOutsideClasses(if IsSpace(s[0]) then s[0] else '/', k);
      SpacesOfClass(s[1..], k);
    }
  }

  /** The number of fields of a pattern that end in a whitespace character. */
  function SpaceDelims(pat: seq<Field>): nat {
    if pat == [] then 0 else (if pat[0].delim == Space then 1 else 0) + SpaceDelims(pat[1..])
  }

  lemma {:induction false} SpacesRender(ps: seq<Piece>, pat: seq<Field>)
    requires Fits(ps, pat)
    ensures Spaces(Render(ps)) == SpaceDelims(pat)
  {
    if ps != [] {
      SpacesOfClass(ps[0].text, pat[0].chars);
      SpacesAppend(ps[0].text, ps[0].delim);
      SpacesAppend(ps[0].text + ps[0].delim, Render(ps[1..]));
      assert Fits(ps[1..], pat[1..]);
      SpacesRender(ps[1..], pat[1..]);
    }
  }

  /** Every text of the pattern has exactly five whitespace characters, three of them captured. */
  lemma ParseSpaces(ps: seq<Piece>)
    requires Fits(ps, FenPattern)
    ensures Spaces(Render(ps)) == 5 && Spaces(Head(ps)) == 3
  {
    SpacesRender(ps, FenPattern);
    assert SpaceDelims(FenPattern) == 5;
    assert FitsField(ps[10], FenPattern[10]) && FitsField(ps[11], FenPattern[11]) && FitsField(ps[12], FenPattern[12]);
    CapturedSplit(ps);
    CounterSpaces(ps[10].delim, ps[11].text, ps[11].delim, ps[12].text);
    SpacesAppend(Head(ps), ps[10].delim + ps[11].text + ps[11].delim + ps[12].text);
  }

  /** The counters and the whitespace around them hold two whitespace characters. */
  lemma CounterSpaces(d10: string, t11: string, d11: string, t12: string)
    requires FitsDelim(d10, Space) && FitsDelim(d11, Space)
    requires AllIn(t11, Digit) && AllIn(t12, Digit)
    ensures Spaces(d10 + t11 + d11 + t12) == 2
  {
    SpacesOfClass(t11, Digit);
    SpacesOfClass(t12, Digit);
    SpacesAppend(d10, t11);
    SpacesAppend(d10 + t11, d11);
    SpacesAppend(d10 + t11 + d11, t12);
  }

  /** The result of `Simplify` has no counters left, so `Simplify` refuses it. */
  lemma SimplifyRejectsOwnOutput(fen: string)
    requires Simplify(fen).Ok?
    ensures Simplify(Simplify(fen).value) == Err("Invalid FEN")
  {
    var ps: seq<Piece> :| Fits(ps, FenPattern) && Render(ps) == fen && Simplify(fen).value == Head(ps);
    ParseSpaces(ps);
    var h := Head(ps);
    if Simplify(h).Ok? {
      var qs: seq<Piece> :| Fits(qs, FenPattern) && Render(qs) == h;
      ParseSpaces(qs);
    }
  }
}
