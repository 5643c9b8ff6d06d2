/**
  The scan: every game is searched, position by position, for a configured target whose position
  string begins with the simplified position and whose rating filter admits the game. The first
  such (position, target) pair emits the game, and the scan moves on to the next game.
*/
module Scan {
  import opened Wrappers
  import Fen
  import opened Ratings

  /** One configured target: a position string, usually a full FEN, and its rating filter. */
  datatype Position = Position(fen: string, filter: Filter)

  /** The configured targets, in the order the configuration lists them. */
  datatype Config = Config(positions: seq<Position>)

  /**
    A game as the chess library presents it: the FEN of each of its positions in play order and
    its tag pairs, by tag name.
  */
  datatype Game = Game(positions: seq<string>, tags: map<string, string>)

  /** `s` begins with `prefix`, compared character by character and case-sensitively. */
  function HasPrefix(s: string, prefix: string): (b: bool)
    ensures b <==> |prefix| <= |s| && forall i :: 0 <= i < |prefix| ==> s[i] == prefix[i]
  {
    |s| >= |prefix| && s[..|prefix|] == prefix
  }

  function WhiteRating(g: Game): int {
    ResolveRating(g.tags, "WhiteElo")
  }

  function BlackRating(g: Game): int {
    ResolveRating(g.tags, "BlackElo")
  }

  /**
    Target `p` takes game `g` at a position whose simplified form is `sfen`: the target's string
    begins with `sfen` and the players' resolved ratings meet every positive threshold.
  */
  predicate Takes(p: Position, g: Game, sfen: string): (b: bool)
    ensures b <==> sfen <= p.fen && MeetsThresholds(p.filter.rating, WhiteRating(g), BlackRating(g))
  {
    HasPrefix(p.fen, sfen) && Admits(p.filter.rating, WhiteRating(g), BlackRating(g))
  }

  /** The simplified form of each position of a game, or the refusal where it is not a FEN. */
  function Simplified(positions: seq<string>): seq<Result<string>> {
    seq(|positions|, j requires 0 <= j < |positions| => Fen.Simplify(positions[j]))
  }

  /** Position `j`, simplified as `sfens[j]`, is valid and target `k` takes the game there. */
  predicate TakenAt(sfens: seq<Result<string>>, g: Game, targets: seq<Position>, j: nat, k: nat) {
    j < |sfens| && k < |targets| && sfens[j].Ok? && Takes(targets[k], g, sfens[j].value)
  }

  /** The first target, from index `k` on, that takes the game at `sfen`. */
  function FirstTaker(targets: seq<Position>, g: Game, sfen: string, k: nat): (r: Option<nat>)
    requires k <= |targets|
    ensures r.Some? ==> k <= r.value < |targets| && Takes(targets[r.value], g, sfen)
    ensures r.Some? ==> forall k' :: k <= k' < r.value ==> !Takes(targets[k'], g, sfen)
    ensures r.None? ==> forall k' :: k <= k' < |targets| ==> !Takes(targets[k'], g, sfen)
    decreases |targets| - k
  {
    if k == |targets| then None
    else if Takes(targets[k], g, sfen) then Some(k)
    else FirstTaker(targets, g, sfen, k + 1)
  }

  /** What the scan of one game ends in. */
  datatype Verdict =
    | Emit(position: nat, target: nat)  // the game is printed because of this pair
    | Exhausted                         // no pair qualifies; the game is not printed
    | Invalid(position: nat)            // this position is not a valid FEN: the program panics

  /**
    The scan of game `g`, whose positions simplify to `sfens`, from position `j` on: positions in
    order and, for each, the targets in order, stopping at the first pair that qualifies or at the
    first invalid position.
  */
  function Judge(sfens: seq<Result<string>>, g: Game, targets: seq<Position>, j: nat): (v: Verdict)
    requires j <= |sfens|
    ensures v.Emit? ==> j <= v.position && TakenAt(sfens, g, targets, v.position, v.target)
    ensures v.Emit? ==> forall k: nat :: k < v.target ==> !TakenAt(sfens, g, targets, v.position, k)
    ensures v.Invalid? ==> j <= v.position < |sfens| && sfens[v.position].Err?
    ensures v.Emit? || v.Invalid? ==> forall j' :: j <= j' < v.position ==> sfens[j'].Ok?
    ensures v.Emit? || v.Invalid? ==>
      forall j': nat, k: nat :: j <= j' < v.position ==> !TakenAt(sfens, g, targets, j', k)
    ensures v.Exhausted? ==> forall j' :: j <= j' < |sfens| ==> sfens[j'].Ok?
    ensures v.Exhausted? ==> forall j': nat, k: nat :: j <= j' ==> !TakenAt(sfens, g, targets, j', k)
    decreases |sfens| - j
  {
    if j == |sfens| then Exhausted
    else
      match sfens[j]
      case Err(_) => Invalid(j)
      case Ok(sfen) =>
        match FirstTaker(targets, g, sfen, 0)
        case Some(k) => Emit(j, k)
        case None => Judge(sfens, g, targets, j + 1)
  }

  /**
    The verdict on one game: a printed game is printed for a valid position and a target that
    takes it there, and a panic is at a position that is not a valid FEN.
  */
  function GameVerdict(g: Game, targets: seq<Position>): (v: Verdict)
    ensures v.Emit? ==>
      && v.position < |g.positions| && v.target < |targets|
      && Fen.Simplify(g.positions[v.position]).Ok?
      && Takes(targets[v.target], g, Fen.Simplify(g.positions[v.position]).value)
    ensures v.Invalid? ==>
      v.position < |g.positions| && Fen.Simplify(g.positions[v.position]).Err?
  {
    Judge(Simplified(g.positions), g, targets, 0)
  }

  /** The verdict on each game. */
  function Verdicts(games: seq<Game>, targets: seq<Position>): seq<Verdict> {
    seq(|games|, i requires 0 <= i < |games| => GameVerdict(games[i], targets))
  }

  /** What the program has printed, as game indices, and whether it ended in a panic. */
  datatype Report = Report(emitted: seq<nat>, panicked: bool)

  /** The run over games with verdicts `vs`, in order; a panic ends it. Only emitting games are printed. */
  function Run(vs: seq<Verdict>): (r: Report)
    ensures forall x :: x in r.emitted ==> x < |vs| && vs[x].Emit?
    decreases |vs|
  {
    if vs == [] then Report([], false)
    else
      var last := |vs| - 1;
      var before := Run(vs[..last]);
      if before.panicked then before
      else
        match vs[last]
        case Emit(_, _) => Report(before.emitted + [last], false)
        case Exhausted => before
        case Invalid(_) => Report(before.emitted, true)
  }

  // What the run prints

  /** Games are printed in input order, each at most once, and only games of the input. */
  lemma {:induction false} RunOrdered(vs: seq<Verdict>)
    ensures forall x :: x in Run(vs).emitted ==> x < |vs|
    ensures forall a, b :: 0 <= a < b < |Run(vs).emitted| ==> Run(vs).emitted[a] < Run(vs).emitted[b]
    decreases |vs|
  {
    if vs != [] {
      var last := |vs| - 1;
      var before := Run(vs[..last]);
      RunOrdered(vs[..last]);
      if !before.panicked && vs[last].Emit? {
        var e := before.emitted + [last];
        forall a | 0 <= a < |before.emitted|
          ensures e[a] == before.emitted[a] < last
        {
          assert before.emitted[a] in before.emitted;
        }
      }
    }
  }

  /**
    Game `i` is printed exactly when its verdict is to emit it and no earlier game made the
    program panic.
  */
  lemma {:induction false} RunEmits(vs: seq<Verdict>, i: int)
    ensures i in Run(vs).emitted <==>
      0 <= i < |vs| && vs[i].Emit? && forall i' :: 0 <= i' < i ==> !vs[i'].Invalid?
    decreases |vs|
  {
    if vs != [] {
      var last := |vs| - 1;
      var before := vs[..last];
      RunEmits(before, i);
      RunOrdered(before);
      RunPanics(before);
    }
  }

  /** The program panics exactly when some game holds a position that is not a valid FEN. */
  lemma {:induction false} RunPanics(vs: seq<Verdict>)
    ensures Run(vs).panicked <==> exists i :: 0 <= i < |vs| && vs[i].Invalid?
    decreases |vs|
  {
    if vs != [] {
      var last := |vs| - 1;
      RunPanics(vs[..last]);
      assert forall i :: 0 <= i < last ==> vs[..last][i] == vs[i];
    }
  }

  /** One step of the run, when no game so far made the program panic. */
  lemma RunStep(vs: seq<Verdict>, i: nat, emitted: seq<nat>)
    requires i < |vs| && Run(vs[..i]) == Report(emitted, false)
    ensures vs[i].Emit? ==> Run(vs[..i + 1]) == Report(emitted + [i], false)
    ensures vs[i].Exhausted? ==> Run(vs[..i + 1]) == Report(emitted, false)
    ensures vs[i].Invalid? ==> Run(vs[..i + 1]) == Report(emitted, true)
  {
    assert vs[..i + 1][..i] == vs[..i];
  }

  /** Once the program has panicked, later games change nothing. */
  lemma {:induction false} RunPanickedPrefix(vs: seq<Verdict>, n: nat)
    requires n <= |vs| && Run(vs[..n]).panicked
    ensures Run(vs) == Run(vs[..n])
    decreases |vs| - n
  {
    if n < |vs| {
      assert vs[..n + 1][..n] == vs[..n];
      RunPanickedPrefix(vs, n + 1);
    } else {
      assert vs[..n] == vs;
    }
  }

  // The matcher

  /** A target holding the full FEN of a position matches that position. */
  lemma OwnFenMatches(fen: string)
    requires Fen.Simplify(fen).Ok?
    ensures HasPrefix(fen, Fen.Simplify(fen).value)
  {
    Fen.SimplifyStripsCounters(fen);
  }

  /**
    A target matches a position whatever counters either carries, and whatever whitespace comes
    before them: two positions whose board, side, castling rights and en-passant square read the
    same match each other.
  */
  lemma CountersIrrelevant(ps: seq<Fen.Piece>, qs: seq<Fen.Piece>)
    requires Fen.Fits(ps, Fen.FenPattern) && Fen.Fits(qs, Fen.FenPattern)
    requires Fen.Head(ps) == Fen.Head(qs)
    ensures Fen.Simplify(Fen.Render(ps)) == Ok(Fen.Head(ps))
    ensures HasPrefix(Fen.Render(qs), Fen.Head(ps))
  {
    Fen.SimplifyRendered(ps);
    Fen.CountersOfParse(qs);
  }

  /** A target shorter than the simplified position never matches it. */
  lemma ShortTargetNeverMatches(target: string, sfen: string)
    requires |target| < |sfen|
    ensures !HasPrefix(target, sfen)
  {
  }

  /** The comparison is case-sensitive, though the pattern check is not. */
  lemma MatchIsCaseSensitive()
    ensures !HasPrefix("8/8/8/8/8/8/8/8 w - - 0 1", "8/8/8/8/8/8/8/8 W - -")
  {
    assert "8/8/8/8/8/8/8/8 w - - 0 1"[16] != "8/8/8/8/8/8/8/8 W - -"[16];
  }

  // The rating filter in the scan

  /** With no threshold configured the tags are never consulted: any tags give the same verdict. */
  lemma {:induction false} UnfilteredTakerIgnoresTags(
    targets: seq<Position>, g: Game, h: Game, sfen: string, k: nat)
    requires k <= |targets|
    requires forall t :: 0 <= t < |targets| ==> targets[t].filter.rating == NoThresholds
    ensures FirstTaker(targets, g, sfen, k) == FirstTaker(targets, h, sfen, k)
    decreases |targets| - k
  {
    if k < |targets| {
      UnfilteredTakerIgnoresTags(targets, g, h, sfen, k + 1);
    }
  }

  lemma {:induction false} UnfilteredJudgeIgnoresTags(
    sfens: seq<Result<string>>, g: Game, h: Game, targets: seq<Position>, j: nat)
    requires j <= |sfens|
    requires forall t :: 0 <= t < |targets| ==> targets[t].filter.rating == NoThresholds
    ensures Judge(sfens, g, targets, j) == Judge(sfens, h, targets, j)
    decreases |sfens| - j
  {
    if j < |sfens| && sfens[j].Ok? {
      UnfilteredTakerIgnoresTags(targets, g, h, sfens[j].value, 0);
      UnfilteredJudgeIgnoresTags(sfens, g, h, targets, j + 1);
    }
  }

  /** When no target has a threshold, a game's verdict does not depend on its tags. */
  lemma UnfilteredIgnoresTags(
    positions: seq<string>, tags: map<string, string>, other: map<string, string>, targets: seq<Position>)
    requires forall t :: 0 <= t < |targets| ==> targets[t].filter.rating == NoThresholds
    ensures GameVerdict(Game(positions, tags), targets) == GameVerdict(Game(positions, other), targets)
  {
    UnfilteredJudgeIgnoresTags(Simplified(positions), Game(positions, tags), Game(positions, other), targets, 0);
  }

  /** A target of average 2000 takes a game of 2200 and 1800, whose average equals it. */
  lemma AverageEqualPasses(target: string, sfen: string)
    requires HasPrefix(target, sfen)
    ensures Takes(Position(target, Filter(Rating(0, 0, 0, 2000))),
                  Game([], map["WhiteElo" := Itoa(2200), "BlackElo" := Itoa(1800)]), sfen)
    ensures !Takes(Position(target, Filter(Rating(0, 0, 0, 2000))),
                   Game([], map["WhiteElo" := Itoa(2200), "BlackElo" := Itoa(1700)]), sfen)
  {
    AtoiItoa(2200);
    AtoiItoa(1800);
    AtoiItoa(1700);
  }

  /** Without rating tags both players count as 1200, which meets a `one` threshold of 1200. */
  lemma UnratedMeetsDefault(target: string, sfen: string)
    requires HasPrefix(target, sfen)
    ensures Takes(Position(target, Filter(Rating(1200, 0, 0, 0))), Game([], map[]), sfen)
    ensures !Takes(Position(target, Filter(Rating(1201, 0, 0, 0))), Game([], map[]), sfen)
  {
  }

  /** A rating tag that is not an integer counts as 0, not as the default. */
  lemma UnparsableTagIsZero(target: string, sfen: string)
    requires HasPrefix(target, sfen)
    ensures !Takes(Position(target, Filter(Rating(0, 1, 0, 0))), Game([], map["WhiteElo" := "n/a"]), sfen)
    ensures Takes(Position(target, Filter(Rating(0, 1, 0, 0))), Game([], map[]), sfen)
  {
    assert !IsDigits("n/a") by { assert !IsDigit("n/a"[0]); }
  }

  // The verdict on a game

  /**
    A game whose positions are all valid FEN never makes the program panic, and it is printed
    exactly when some position and some target qualify; the pair that prints it is the first in
    position-major, target-minor order.
  */
  lemma VerdictOfValidGame(g: Game, targets: seq<Position>)
    requires forall j :: 0 <= j < |g.positions| ==> Fen.Simplify(g.positions[j]).Ok?
    ensures !GameVerdict(g, targets).Invalid?
    ensures GameVerdict(g, targets).Emit? <==>
      exists j: nat, k: nat :: TakenAt(Simplified(g.positions), g, targets, j, k)
    ensures GameVerdict(g, targets).Emit? ==>
      var (j, k) := (GameVerdict(g, targets).position, GameVerdict(g, targets).target);
      && TakenAt(Simplified(g.positions), g, targets, j, k)
      && (forall j': nat, k': nat :: j' < j ==> !TakenAt(Simplified(g.positions), g, targets, j', k'))
      && (forall k': nat :: k' < k ==> !TakenAt(Simplified(g.positions), g, targets, j, k'))
  {
  }

  /**
    When every position of every game is valid FEN, the program does not panic and it prints game
    `i` exactly when some position of that game and some target qualify; every game is printed at
    most once and in input order.
  */
  lemma ScanPrintsQualifyingGames(games: seq<Game>, targets: seq<Position>, i: int)
    requires forall g, j :: g in games && 0 <= j < |g.positions| ==> Fen.Simplify(g.positions[j]).Ok?
    ensures !Run(Verdicts(games, targets)).panicked
    ensures i in Run(Verdicts(games, targets)).emitted <==>
      0 <= i < |games| && exists j: nat, k: nat :: TakenAt(Simplified(games[i].positions), games[i], targets, j, k)
  {
    var vs := Verdicts(games, targets);
    forall t | 0 <= t < |games|
      ensures !vs[t].Invalid?
      ensures vs[t].Emit? <==> exists j: nat, k: nat :: TakenAt(Simplified(games[t].positions), games[t], targets, j, k)
    {
      assert games[t] in games;
      VerdictOfValidGame(games[t], targets);
    }
    RunPanics(vs);
    RunEmits(vs, i);
  }

  // The program's loop

  /**
    The test one target makes at one position: its position string must begin with the simplified
    position and, when a threshold is configured, the ratings are read from the tags (a missing tag
    gives the default) and each configured threshold is checked in turn.
  */
  method TargetTakes(p: Position, game: Game, sfen: string) returns (ok: bool)
    ensures ok <==> Takes(p, game, sfen)
  {
    if !HasPrefix(p.fen, sfen) {
      return false;
    }
    var r := p.filter.rating;
    if r != NoThresholds {
      var white, black := DefaultRating, DefaultRating;
      if "WhiteElo" in game.tags {
        white := Atoi(game.tags["WhiteElo"]).0;
      }
      if "BlackElo" in game.tags {
        black := Atoi(game.tags["BlackElo"]).0;
      }
      if r.average > 0 && HalfTowardZero(white + black) < r.average {
        return false;
      }
      if r.one > 0 && white < r.one && black < r.one {
        return false;
      }
      if r.white > 0 && white < r.white {
        return false;
      }
      if r.black > 0 && black < r.black {
        return false;
      }
    }
    return true;
  }

  /** One step of the scan of a game, at a valid position. */
  lemma JudgeStep(sfens: seq<Result<string>>, g: Game, targets: seq<Position>, j: nat)
    requires j < |sfens| && sfens[j].Ok?
    ensures FirstTaker(targets, g, sfens[j].value, 0).Some? ==>
      Judge(sfens, g, targets, j) == Emit(j, FirstTaker(targets, g, sfens[j].value, 0).value)
    ensures FirstTaker(targets, g, sfens[j].value, 0).None? ==>
      Judge(sfens, g, targets, j) == Judge(sfens, g, targets, j + 1)
  {
  }

  /**
    The scan as the program runs it: for each game, its positions in order and, for each position,
    the targets in order. A target that does not take the game moves the scan on to the next
    target; the first that does prints the game and ends its scan. An invalid position ends the
    whole run.
  */
  method ScanGames(games: seq<Game>, config: Config) returns (out: seq<nat>, panicked: bool)
    ensures Report(out, panicked) == Run(Verdicts(games, config.positions))
  {
    var targets := config.positions;
    ghost var vs := Verdicts(games, targets);
    out, panicked := [], false;
    label outer:
    for i := 0 to |games|
      invariant Run(vs[..i]) == Report(out, false)
    {
      var game := games[i];
      ghost var sfens := Simplified(game.positions);
      assert vs[i] == Judge(sfens, game, targets, 0);
      RunStep(vs, i, out);
      for j := 0 to |game.positions|
        invariant Judge(sfens, game, targets, 0) == Judge(sfens, game, targets, j)
      {
        var result := Fen.Simplify(game.positions[j]);
        assert result == sfens[j];
        if result.Err? {
          assert vs[i] == Invalid(j);
          panicked := true;
          RunPanickedPrefix(vs, i + 1);
          return;
        }
        var sfen := result.value;
        JudgeStep(sfens, game, targets, j);
        for k := 0 to |targets|
          invariant FirstTaker(targets, game, sfen, 0) == FirstTaker(targets, game, sfen, k)
        {
          var ok := TargetTakes(targets[k], game, sfen);
          if ok {
            assert FirstTaker(targets, game, sfen, k) == Some(k);
            assert vs[i] == Emit(j, k);
            out := out + [i];
            continue outer;
          }
        }
      }
      assert vs[i] == Exhausted;
    }
    assert vs[..|games|] == vs;
  }
}
