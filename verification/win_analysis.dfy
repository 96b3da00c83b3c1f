/**
 * The projected-win dashboard: each game's terminal play, the
 * classification of a game's result against its pregame spread, the counts
 * that feed the charts, and the per-drive summary table of one game.
 */
module ProjectedWinAnalysis {
  import opened PlayData

  // ---------------------------------------------------------------------
  // Terminal play of each game: sort by (game_id, play_id), keep the last
  // row of each game.

  ghost predicate GameIdsIncreasing(s: seq<Play>)
  {
    forall i, j :: 0 <= i < j < |s| ==> StrLess(s[i].gameId, s[j].gameId)
  }

  /** `r` holds a row of p's game that is no earlier than `p`. */
  ghost predicate Supersedes(r: seq<Play>, p: Play)
  {
    exists j :: 0 <= j < |r| && r[j].gameId == p.gameId && p.playId <= r[j].playId
  }

  lemma ConsKeepsIncreasing(x: Play, rest: seq<Play>)
    requires GameIdsIncreasing(rest)
    requires forall y :: y in rest ==> StrLess(x.gameId, y.gameId)
    ensures GameIdsIncreasing([x] + rest)
  {
    var r := [x] + rest;
    forall i, j | 0 <= i < j < |r| ensures StrLess(r[i].gameId, r[j].gameId) {
      assert r[j] == rest[j - 1];
      if i > 0 {
        assert r[i] == rest[i - 1];
      } else {
        assert r[j] in rest;
      }
    }
  }

  lemma SupersedesCons(x: Play, rest: seq<Play>, p: Play)
    requires Supersedes(rest, p)
    ensures Supersedes([x] + rest, p)
  {
    var j :| 0 <= j < |rest| && rest[j].gameId == p.gameId && p.playId <= rest[j].playId;
    assert ([x] + rest)[j + 1] == rest[j];
  }

  lemma SupersedesTail(acc: seq<Play>, r: seq<Play>)
    requires |acc| > 0 && |r| == |acc| && r[1..] == acc[1..]
    ensures forall i :: 1 <= i < |acc| ==> Supersedes(r, acc[i])
  {
    forall i | 1 <= i < |acc| ensures Supersedes(r, acc[i]) {
      assert r[i] == r[1..][i - 1] == acc[1..][i - 1] == acc[i];
    }
  }

  /**
   * Adds one row to a list of terminal rows ordered by game id. A row of a
   * game already present replaces it when its play_id is not smaller, so on
   * equal play_ids the later input row wins, as with a stable sort.
   */
  function InsertTerminal(acc: seq<Play>, p: Play): (r: seq<Play>)
    requires GameIdsIncreasing(acc)
    ensures GameIdsIncreasing(r)
    ensures forall x :: x in r ==> x in acc || x == p
    ensures Supersedes(r, p)
    ensures forall i :: 0 <= i < |acc| ==> Supersedes(r, acc[i])
    decreases |acc|
  {
    if acc == [] then
      var r := [p];
      assert r[0] == p;
      r
    else if p.gameId == acc[0].gameId then
      var r := [if acc[0].playId <= p.playId then p else acc[0]] + acc[1..];
      assert r[1..] == acc[1..];
      SupersedesTail(acc, r);
      assert r[0].gameId == p.gameId && p.playId <= r[0].playId && acc[0].playId <= r[0].playId;
      r
    else if StrLess(p.gameId, acc[0].gameId) then
      forall y | y in acc ensures StrLess(p.gameId, y.gameId) {
        var k :| 0 <= k < |acc| && acc[k] == y;
        if k > 0 {
          StrLessTransitive(p.gameId, acc[0].gameId, y.gameId);
        }
      }
      ConsKeepsIncreasing(p, acc);
      var r := [p] + acc;
      assert r[0] == p;
      assert r[1..] == acc;
      forall i | 0 <= i < |acc| ensures Supersedes(r, acc[i]) {
        assert r[i + 1] == acc[i];
      }
      r
    else
      StrLessTotal(p.gameId, acc[0].gameId);
      var rest := InsertTerminal(acc[1..], p);
      assert forall x :: x in rest ==> StrLess(acc[0].gameId, x.gameId) by {
        forall x | x in rest ensures StrLess(acc[0].gameId, x.gameId) {
          if x in acc[1..] {
            var i :| 0 <= i < |acc[1..]| && acc[1..][i] == x;
            assert acc[i + 1] == x;
          }
        }
      }
      ConsKeepsIncreasing(acc[0], rest);
      SupersedesCons(acc[0], rest, p);
      var r := [acc[0]] + rest;
      forall i | 0 <= i < |acc| ensures Supersedes(r, acc[i]) {
        if i == 0 {
          assert r[0] == acc[0];
        } else {
          assert acc[1..][i - 1] == acc[i];
          SupersedesCons(acc[0], rest, acc[i]);
        }
      }
      r
  }

  /**
   * A row InsertTerminal keeps from `acc` beside `p` is either of another
   * game or has a strictly larger play_id than `p`: an equal play_id never
   * keeps the earlier row.
   */
  lemma {:induction false} InsertTerminalKeeps(acc: seq<Play>, p: Play)
    requires GameIdsIncreasing(acc)
    ensures forall x :: x in InsertTerminal(acc, p) && x != p ==>
      x in acc && (x.gameId == p.gameId ==> p.playId < x.playId)
    decreases |acc|
  {
    var r := InsertTerminal(acc, p);
    if acc == [] {
    } else if p.gameId == acc[0].gameId {
      assert r[1..] == acc[1..];
      forall x | x in r && x != p ensures x in acc && (x.gameId == p.gameId ==> p.playId < x.playId) {
        var k :| 0 <= k < |r| && r[k] == x;
        if k > 0 {
          assert x == acc[k];
          assert StrLess(acc[0].gameId, acc[k].gameId);
          StrLessIrreflexive(p.gameId);
        }
      }
    } else if StrLess(p.gameId, acc[0].gameId) {
      assert r == [p] + acc;
      forall x | x in r && x != p ensures x in acc && (x.gameId == p.gameId ==> p.playId < x.playId) {
        var k :| 0 <= k < |r| && r[k] == x;
        assert StrLess(r[0].gameId, r[k].gameId);
        StrLessIrreflexive(p.gameId);
      }
    } else {
      InsertTerminalKeeps(acc[1..], p);
      var rest := InsertTerminal(acc[1..], p);
      assert r == [acc[0]] + rest;
      forall x | x in r && x != p ensures x in acc && (x.gameId == p.gameId ==> p.playId < x.playId) {
        if x != acc[0] {
          assert x in rest;
        }
      }
    }
  }

  /**
   * `x` is taken from `plays` at a place after which no row of its game
   * has a play_id as large: the row `tail(1)` picks after a stable sort.
   */
  ghost predicate TakenLast(plays: seq<Play>, x: Play)
  {
    exists m :: 0 <= m < |plays| && plays[m] == x &&
      forall k :: m < k < |plays| && plays[k].gameId == x.gameId ==> plays[k].playId < x.playId
  }

  /** Appending a row keeps `x` taken last unless the row outranks it. */
  lemma TakenLastSnoc(init: seq<Play>, p: Play, x: Play)
    requires TakenLast(init, x)
    requires x.gameId == p.gameId ==> p.playId < x.playId
    ensures TakenLast(init + [p], x)
  {
    var plays := init + [p];
    var m :| 0 <= m < |init| && init[m] == x &&
      forall k :: m < k < |init| && init[k].gameId == x.gameId ==> init[k].playId < x.playId;
    assert plays[m] == x;
    forall k | m < k < |plays| && plays[k].gameId == x.gameId ensures plays[k].playId < x.playId {
      if k < |init| {
        assert plays[k] == init[k];
      }
    }
  }

  /** Every terminal row is taken from the input as a stable sort would. */
  lemma {:induction false} TerminalTakesLast(plays: seq<Play>)
    ensures forall x :: x in TerminalPlays(plays) ==> TakenLast(plays, x)
  {
    if plays != [] {
      var n := |plays|;
      var init, p := plays[..n - 1], plays[n - 1];
      assert plays == init + [p];
      TerminalTakesLast(init);
      InsertTerminalKeeps(TerminalPlays(init), p);
      forall x | x in TerminalPlays(plays) ensures TakenLast(plays, x) {
        if x == p {
          assert plays[n - 1] == x;
        } else {
          TakenLastSnoc(init, p, x);
        }
      }
    }
  }

  /**
   * The terminal rows of all games: one row per game, ordered by game id,
   * each taken from the input and no earlier than any row of its game.
   */
  function TerminalPlays(plays: seq<Play>): (r: seq<Play>)
    ensures GameIdsIncreasing(r)
    ensures forall x :: x in r ==> x in plays
    ensures forall i :: 0 <= i < |plays| ==> Supersedes(r, plays[i])
  {
    if plays == [] then []
    else
      var init := plays[..|plays| - 1];
      var acc := TerminalPlays(init);
      var r := InsertTerminal(acc, plays[|plays| - 1]);
      assert forall i :: 0 <= i < |plays| ==> Supersedes(r, plays[i]) by {
        forall i | 0 <= i < |plays| ensures Supersedes(r, plays[i]) {
          if i < |plays| - 1 {
            assert init[i] == plays[i];
            var j :| 0 <= j < |acc| && acc[j].gameId == plays[i].gameId && plays[i].playId <= acc[j].playId;
            assert Supersedes(r, acc[j]);
            var k :| 0 <= k < |r| && r[k].gameId == acc[j].gameId && acc[j].playId <= r[k].playId;
          }
        }
      }
      r
  }

  /**
   * A game's terminal row is its only row in the result (existence is
   * TerminalPlays' last postcondition), no row of that game in the input
   * has a larger play_id, and no later row of that game has an equal one.
   */
  lemma TerminalRowOfGame(plays: seq<Play>, i: nat, j: nat)
    requires i < |plays|
    requires j < |TerminalPlays(plays)| && TerminalPlays(plays)[j].gameId == plays[i].gameId
    ensures plays[i].playId <= TerminalPlays(plays)[j].playId
    ensures forall k :: 0 <= k < |TerminalPlays(plays)| && TerminalPlays(plays)[k].gameId == plays[i].gameId ==> k == j
    ensures TakenLast(plays, TerminalPlays(plays)[j])
  {
    var r := TerminalPlays(plays);
    TerminalTakesLast(plays);
    forall k | 0 <= k < |r| && r[k].gameId == plays[i].gameId
      ensures k == j
    {
      if k != j {
        StrLessIrreflexive(r[j].gameId);
      }
    }
    var m :| 0 <= m < |r| && r[m].gameId == plays[i].gameId && plays[i].playId <= r[m].playId;
    assert m == j;
  }

  // ---------------------------------------------------------------------
  // Classification of one game against its spread.

  datatype ResultType = EvenMatch | ConfirmedWin | Upset

  datatype Classification = Classification(
    gameId: string,
    season: int,
    homeTeam: string,
    awayTeam: string,
    spread: real,
    expectedWinner: string,
    actualWinner: string,
    resultType: ResultType,
    bigHomeFavoriteUpset: bool,
    bigAwayFavoriteUpset: bool
  )

  const EvenLabel: string := "Even"
  const TieLabel: string := "Tie"
  /** Spread beyond which an upset counts as a big upset (exclusive). */
  const BigSpread: real := 6.0

  /** Team names that cannot be confused with each other or with the labels. */
  predicate DistinctTeams(home: string, away: string)
  {
    home != away && home != EvenLabel && home != TieLabel && away != EvenLabel && away != TieLabel
  }

  /** The team the spread favours: positive favours home, negative away. */
  function ExpectedWinner(home: string, away: string, spread: real): (w: string)
    ensures w == home || w == away || w == EvenLabel
    ensures spread > 0.0 ==> w == home
    ensures spread < 0.0 ==> w == away
    ensures spread == 0.0 ==> w == EvenLabel
    ensures DistinctTeams(home, away) ==>
      && (w == home <==> spread > 0.0)
      && (w == away <==> spread < 0.0)
      && (w == EvenLabel <==> spread == 0.0)
  {
    if spread > 0.0 then home
    else if spread < 0.0 then away
    else EvenLabel
  }

  /** The strictly higher-scoring team. */
  function ActualWinner(home: string, away: string, homeScore: int, awayScore: int): (w: string)
    ensures w == home || w == away || w == TieLabel
    ensures homeScore > awayScore ==> w == home
    ensures awayScore > homeScore ==> w == away
    ensures homeScore == awayScore ==> w == TieLabel
    ensures DistinctTeams(home, away) ==>
      && (w == home <==> homeScore > awayScore)
      && (w == away <==> awayScore > homeScore)
      && (w == TieLabel <==> homeScore == awayScore)
  {
    if homeScore > awayScore then home
    else if awayScore > homeScore then away
    else TieLabel
  }

  function ResultOf(expected: string, actual: string): ResultType
  {
    if expected == EvenLabel || actual == TieLabel then EvenMatch
    else if expected == actual then ConfirmedWin
    else Upset
  }

  /**
   * The big-upset flags agree with the result type and the spread, and an
   * upset names one of the game's teams as the favourite and the other as
   * the winner.
   */
  predicate Consistent(c: Classification)
  {
    && (c.bigHomeFavoriteUpset <==> c.resultType == Upset && c.spread > BigSpread)
    && (c.bigAwayFavoriteUpset <==> c.resultType == Upset && c.spread < -BigSpread)
    && (c.resultType == Upset ==>
          && (c.expectedWinner == c.homeTeam || c.expectedWinner == c.awayTeam)
          && (c.actualWinner == c.homeTeam || c.actualWinner == c.awayTeam)
          && c.expectedWinner != c.actualWinner)
  }

  /** The classification of a game's terminal row whose spread is `spread`. */
  function ClassifyRow(row: Play, spread: real): (c: Classification)
    ensures c.gameId == row.gameId && c.season == row.season && c.spread == spread
    ensures c.homeTeam == row.homeTeam && c.awayTeam == row.awayTeam
    ensures c.expectedWinner == ExpectedWinner(row.homeTeam, row.awayTeam, spread)
    ensures c.actualWinner == ActualWinner(row.homeTeam, row.awayTeam, row.totalHomeScore, row.totalAwayScore)
    ensures c.resultType == ConfirmedWin ==> c.expectedWinner == c.actualWinner
    ensures Consistent(c)
    ensures !(c.bigHomeFavoriteUpset && c.bigAwayFavoriteUpset)
    ensures spread == 0.0 || row.totalHomeScore == row.totalAwayScore ==> c.resultType == EvenMatch
    ensures DistinctTeams(row.homeTeam, row.awayTeam) ==>
      var (h, a) := (row.totalHomeScore, row.totalAwayScore);
      && (c.resultType == EvenMatch <==> spread == 0.0 || h == a)
      && (c.resultType == ConfirmedWin <==> (spread > 0.0 && h > a) || (spread < 0.0 && a > h))
      && (c.resultType == Upset <==> (spread > 0.0 && a > h) || (spread < 0.0 && h > a))
      && (c.bigHomeFavoriteUpset <==> spread > BigSpread && a > h)
      && (c.bigAwayFavoriteUpset <==> spread < -BigSpread && h > a)
  {
    var expected := ExpectedWinner(row.homeTeam, row.awayTeam, spread);
    var actual := ActualWinner(row.homeTeam, row.awayTeam, row.totalHomeScore, row.totalAwayScore);
    var result := ResultOf(expected, actual);
    Classification(
      row.gameId, row.season, row.homeTeam, row.awayTeam, spread,
      expected, actual, result,
      result == Upset && spread > BigSpread,
      result == Upset && spread < -BigSpread)
  }

  /** Mask `pd.notna(row['spread_line'])`: the rows that carry a spread. */
  const HasSpread: Play -> bool := (p: Play) => p.spreadLine.Some?

  /** The classifications of the terminal rows, skipping rows with no spread. */
  function ClassifyAll(rows: seq<Play>): (r: seq<Classification>)
    ensures |r| <= |rows|
    ensures forall k :: 0 <= k < |r| ==> Consistent(r[k])
  {
    if rows == [] then []
    else
      var init := ClassifyAll(rows[..|rows| - 1]);
      var last := rows[|rows| - 1];
      if last.spreadLine.Some? then init + [ClassifyRow(last, last.spreadLine.value)] else init
  }

  /**
   * A row with no spread yields nothing; every other row yields exactly one
   * classification, in input order.
   */
  lemma {:induction false} ClassifyAllKeepsSpreadRows(rows: seq<Play>)
    ensures |ClassifyAll(rows)| == |Where(rows, HasSpread)|
    ensures forall k :: 0 <= k < |Where(rows, HasSpread)| ==>
      && Where(rows, HasSpread)[k].spreadLine.Some?
      && ClassifyAll(rows)[k] == ClassifyRow(Where(rows, HasSpread)[k], Where(rows, HasSpread)[k].spreadLine.value)
    decreases |rows|
  {
    if rows != [] {
      ClassifyAllKeepsSpreadRows(rows[..|rows| - 1]);
    }
  }

  /** The loop over the terminal rows that builds the classified table. */
  method ClassifyGames(endGames: seq<Play>) returns (results: seq<Classification>)
    ensures results == ClassifyAll(endGames)
  {
    results := [];
    var i := 0;
    while i < |endGames|
      invariant 0 <= i <= |endGames|
      invariant results == ClassifyAll(endGames[..i])
    {
      var row := endGames[i];
      assert endGames[..i + 1][..i] == endGames[..i];
      if row.spreadLine.Some? {
        results := results + [ClassifyRow(row, row.spreadLine.value)];
      }
      i := i + 1;
    }
    assert endGames[..i] == endGames;
  }

  // ---------------------------------------------------------------------
  // Subsets and counts feeding the charts.

  predicate IsBigUpset(c: Classification)
  {
    c.bigHomeFavoriteUpset || c.bigAwayFavoriteUpset
  }

  function Upsets(cl: seq<Classification>): (r: seq<Classification>)
    ensures |r| <= |cl|
    ensures forall c :: c in r <==> c in cl && c.resultType == Upset
  {
    if cl == [] then []
    else
      var init := Upsets(cl[..|cl| - 1]);
      assert cl == cl[..|cl| - 1] + [cl[|cl| - 1]];
      if cl[|cl| - 1].resultType == Upset then init + [cl[|cl| - 1]] else init
  }

  function BigUpsets(cl: seq<Classification>): (r: seq<Classification>)
    ensures |r| <= |cl|
    ensures forall c :: c in r <==> c in cl && IsBigUpset(c)
  {
    if cl == [] then []
    else
      var init := BigUpsets(cl[..|cl| - 1]);
      assert cl == cl[..|cl| - 1] + [cl[|cl| - 1]];
      if IsBigUpset(cl[|cl| - 1]) then init + [cl[|cl| - 1]] else init
  }

  /** In a consistent table every big upset is an upset, so there are no more of them. */
  lemma {:induction false} BigUpsetsWithinUpsets(cl: seq<Classification>)
    ensures (forall k :: 0 <= k < |cl| ==> Consistent(cl[k])) ==> |BigUpsets(cl)| <= |Upsets(cl)|
    decreases |cl|
  {
    if cl != [] {
      BigUpsetsWithinUpsets(cl[..|cl| - 1]);
    }
  }

  /** Pie 1: games that are not upsets, and upsets. */
  function AllGamesVsUpsets(cl: seq<Classification>): (r: (int, int))
    ensures r.0 >= 0 && r.1 >= 0
    ensures r.0 + r.1 == |cl|
    ensures r.1 == |Upsets(cl)|
  {
    (|cl| - |Upsets(cl)|, |Upsets(cl)|)
  }

  /** Pie 2: upsets below the big-spread threshold, and big-spread upsets. */
  function UpsetsBySpreadSize(cl: seq<Classification>): (r: (int, int))
    ensures r.1 == |BigUpsets(cl)|
    ensures r.0 + r.1 == |Upsets(cl)|
    ensures (forall k :: 0 <= k < |cl| ==> Consistent(cl[k])) ==> r.0 >= 0
  {
    BigUpsetsWithinUpsets(cl);
    (|Upsets(cl)| - |BigUpsets(cl)|, |BigUpsets(cl)|)
  }

  /**
   * Pie 3: big upsets of home favourites and of away favourites. Over big
   * upsets of a consistent table exactly one flag is set per game, so the
   * two slices add up to the number of big upsets.
   */
  function BigUpsetsByFavourite(big: seq<Classification>): (r: (nat, nat))
    ensures r.0 <= |big| && r.1 <= |big|
    ensures r.0 > 0 <==> exists k :: 0 <= k < |big| && big[k].bigHomeFavoriteUpset
    ensures r.1 > 0 <==> exists k :: 0 <= k < |big| && big[k].bigAwayFavoriteUpset
    ensures (forall k :: 0 <= k < |big| ==> Consistent(big[k]) && IsBigUpset(big[k])) ==> r.0 + r.1 == |big|
  {
    if big == [] then (0, 0)
    else
      var init := BigUpsetsByFavourite(big[..|big| - 1]);
      var last := big[|big| - 1];
      assert forall k :: 0 <= k < |big| - 1 ==> big[..|big| - 1][k] == big[k];
      (init.0 + (if last.bigHomeFavoriteUpset then 1 else 0),
       init.1 + (if last.bigAwayFavoriteUpset then 1 else 0))
  }

  /** The big-upset table and the pie 3 counts taken from it. */
  lemma BigUpsetSlicesAddUp(cl: seq<Classification>)
    requires forall k :: 0 <= k < |cl| ==> Consistent(cl[k])
    ensures var r := BigUpsetsByFavourite(BigUpsets(cl)); r.0 + r.1 == |BigUpsets(cl)|
  {
    var big := BigUpsets(cl);
    forall k | 0 <= k < |big| ensures Consistent(big[k]) && IsBigUpset(big[k]) {
      assert big[k] in big;
    }
  }

  /**
   * Over the big-upset table of a consistent classification, the home
   * slice is non-empty iff some upset had a spread above 6 (the home team
   * favoured), and the away slice iff some upset had one below -6.
   */
  lemma {:induction false} BigUpsetSlicesBySpread(cl: seq<Classification>)
    requires forall k :: 0 <= k < |cl| ==> Consistent(cl[k])
    ensures var r := BigUpsetsByFavourite(BigUpsets(cl));
      && (r.0 > 0 <==> exists c :: c in cl && c.resultType == Upset && c.spread > BigSpread)
      && (r.1 > 0 <==> exists c :: c in cl && c.resultType == Upset && c.spread < -BigSpread)
  {
    var big := BigUpsets(cl);
    forall c | c in cl ensures Consistent(c) {
      var k :| 0 <= k < |cl| && cl[k] == c;
    }
    if c :| c in cl && c.resultType == Upset && c.spread > BigSpread {
      var k :| 0 <= k < |big| && big[k] == c;
    }
    if c :| c in cl && c.resultType == Upset && c.spread < -BigSpread {
      var k :| 0 <= k < |big| && big[k] == c;
    }
    if k :| 0 <= k < |big| && big[k].bigHomeFavoriteUpset {
      assert big[k] in big;
    }
    if k :| 0 <= k < |big| && big[k].bigAwayFavoriteUpset {
      assert big[k] in big;
    }
  }

  datatype TeamTally = TeamTally(totalUpsets: nat, bigSpreadUpsets: nat)

  function GameIds(cl: seq<Classification>): set<string>
  {
    set c | c in cl :: c.gameId
  }

  /** How many upsets had `team` as the expected winner. */
  function CountExpected(upsets: seq<Classification>, team: string): (n: nat)
    ensures n <= |upsets|
    ensures n > 0 <==> exists k :: 0 <= k < |upsets| && upsets[k].expectedWinner == team
  {
    if upsets == [] then 0
    else
      var init := upsets[..|upsets| - 1];
      var m := CountExpected(init, team);
      assert forall k :: 0 <= k < |init| ==> init[k] == upsets[k];
      m + (if upsets[|upsets| - 1].expectedWinner == team then 1 else 0)
  }

  /** How many of those upsets are, by game id, among the big upsets. */
  function CountExpectedBig(upsets: seq<Classification>, team: string, bigIds: set<string>): (n: nat)
    ensures n <= CountExpected(upsets, team)
    ensures n > 0 <==> exists k :: 0 <= k < |upsets| && upsets[k].expectedWinner == team && upsets[k].gameId in bigIds
  {
    if upsets == [] then 0
    else
      var last := upsets[|upsets| - 1];
      assert forall k :: 0 <= k < |upsets| - 1 ==> upsets[..|upsets| - 1][k] == upsets[k];
      CountExpectedBig(upsets[..|upsets| - 1], team, bigIds)
        + (if last.expectedWinner == team && last.gameId in bigIds then 1 else 0)
  }

  /**
   * Bar chart: per expected winner, its upsets and how many of them were
   * big-spread upsets. Every team listed lost at least once as the
   * favourite, and its big-spread upsets never exceed its upsets.
   */
  function UpsetsByTeam(upsets: seq<Classification>, bigIds: set<string>): (m: map<string, TeamTally>)
    ensures forall t :: t in m <==> exists k :: 0 <= k < |upsets| && upsets[k].expectedWinner == t
    ensures forall t :: t in m ==> m[t].totalUpsets >= 1 && m[t].bigSpreadUpsets <= m[t].totalUpsets
    ensures forall t :: t in m ==> m[t].totalUpsets == CountExpected(upsets, t)
    ensures forall t :: t in m ==> m[t].bigSpreadUpsets == CountExpectedBig(upsets, t, bigIds)
  {
    map t | t in (set c | c in upsets :: c.expectedWinner) ::
      TeamTally(CountExpected(upsets, t), CountExpectedBig(upsets, t, bigIds))
  }

  /**
   * The upset table holds an upset row's expected winner at some index,
   * and every one of its rows is an upset row of the classified table.
   */
  lemma {:induction false} UpsetExpectedWinners(cl: seq<Classification>)
    ensures forall c :: c in cl && c.resultType == Upset ==>
      exists k :: 0 <= k < |Upsets(cl)| && Upsets(cl)[k].expectedWinner == c.expectedWinner
    ensures forall k :: 0 <= k < |Upsets(cl)| ==> Upsets(cl)[k] in cl && Upsets(cl)[k].resultType == Upset
  {
    var upsets := Upsets(cl);
    forall c | c in cl && c.resultType == Upset
      ensures exists k :: 0 <= k < |upsets| && upsets[k].expectedWinner == c.expectedWinner
    {
      assert c in upsets;
      var k :| 0 <= k < |upsets| && upsets[k] == c;
      assert upsets[k].expectedWinner == c.expectedWinner;
    }
    forall k | 0 <= k < |upsets| ensures upsets[k] in cl && upsets[k].resultType == Upset {
      assert upsets[k] in upsets;
    }
  }

  /** The bar chart over a classified table. */
  function TeamUpsetCounts(cl: seq<Classification>): (m: map<string, TeamTally>)
    ensures forall t :: t in m <==> exists c :: c in cl && c.resultType == Upset && c.expectedWinner == t
  {
    UpsetExpectedWinners(cl);
    UpsetsByTeam(Upsets(cl), GameIds(BigUpsets(cl)))
  }

  /**
   * Over a consistent table, every team with a bar played in an upset as
   * the favourite and lost it: it is one of that game's two teams and not
   * its winner.
   */
  lemma TeamBarsAreBeatenFavourites(cl: seq<Classification>)
    requires forall k :: 0 <= k < |cl| ==> Consistent(cl[k])
    ensures forall t :: t in TeamUpsetCounts(cl) ==> exists c :: c in cl && BeatenFavourite(c, t)
  {
    forall t | t in TeamUpsetCounts(cl) ensures exists c :: c in cl && BeatenFavourite(c, t) {
      var c :| c in cl && c.resultType == Upset && c.expectedWinner == t;
      var k :| 0 <= k < |cl| && cl[k] == c;
      assert Consistent(cl[k]);
    }
  }

  /** `t` was the favourite of upset `c`: one of its two teams, and not its winner. */
  predicate BeatenFavourite(c: Classification, t: string)
  {
    c.resultType == Upset && c.expectedWinner == t && (t == c.homeTeam || t == c.awayTeam) && c.actualWinner != t
  }

  /** How many upsets happened in `season`. */
  function CountSeason(upsets: seq<Classification>, season: int): (n: nat)
    ensures n <= |upsets|
    ensures n > 0 <==> exists k :: 0 <= k < |upsets| && upsets[k].season == season
  {
    if upsets == [] then 0
    else
      var init := upsets[..|upsets| - 1];
      assert forall k :: 0 <= k < |init| ==> init[k] == upsets[k];
      CountSeason(init, season) + (if upsets[|upsets| - 1].season == season then 1 else 0)
  }

  /** Line chart: the number of upsets per season that has any. */
  function UpsetsPerSeason(upsets: seq<Classification>): (m: map<int, nat>)
    ensures forall y :: y in m <==> exists k :: 0 <= k < |upsets| && upsets[k].season == y
    ensures forall y :: y in m ==> 1 <= m[y] <= |upsets|
    ensures forall y :: y in m ==> m[y] == CountSeason(upsets, y)
  {
    map y | y in (set c | c in upsets :: c.season) :: CountSeason(upsets, y)
  }

  // ---------------------------------------------------------------------
  // Drive summary table of one game.

  datatype DriveSummaryRow = DriveSummaryRow(
    drive: int,
    posteam: string,
    defteam: string,
    startWp: real,
    endWp: real,
    wpChange: real,
    yardsGained: int,
    totalHomeScore: int,
    totalAwayScore: int
  )

  const SummaryColumns: seq<string> := [
    "drive", "posteam", "defteam", "start_wp", "end_wp", "wp_change",
    "yards_gained", "total_home_score", "total_away_score"
  ]

  /**
   * The winner the drive table uses: the home team when, on the game's last
   * row in (drive, play_id) order, home leads; otherwise (a tie included)
   * the away team.
   */
  function GameWinner(game: seq<Play>): (w: string)
    requires |game| > 0
    ensures var last := game[LastIndex(game)];
      && (forall q :: q in game ==> !SortsBefore(last, q))
      && (w == last.homeTeam || w == last.awayTeam)
      && (last.totalHomeScore > last.totalAwayScore ==> w == last.homeTeam)
      && (last.homeTeam != last.awayTeam && w == last.homeTeam ==> last.totalHomeScore > last.totalAwayScore)
  {
    var last := game[LastIndex(game)];
    if last.totalHomeScore > last.totalAwayScore then last.homeTeam else last.awayTeam
  }

  /** A play's win probability from the winner's side, or `wp` when that column is absent. */
  function WinnerWp(p: Play, winnerIsHome: bool, hasHomeWp: bool, hasAwayWp: bool): real
  {
    if winnerIsHome then (if hasHomeWp then p.homeWp else p.wp)
    else (if hasAwayWp then p.awayWp else p.wp)
  }

  /** The summary row of drive `d` of `game`. */
  function SummarizeDrive(game: seq<Play>, d: int, winner: string, hasHomeWp: bool, hasAwayWp: bool): DriveSummaryRow
    requires HasDrive(game, d)
  {
    var g := Where(game, OnDrive(d));
    DriveGroupNonEmpty(game, d);
    var first := g[FirstIndex(g)];
    var last := g[LastIndex(g)];
    var winnerIsHome := winner == first.homeTeam;
    var startWp := WinnerWp(first, winnerIsHome, hasHomeWp, hasAwayWp);
    var endWp := WinnerWp(last, winnerIsHome, hasHomeWp, hasAwayWp);
    DriveSummaryRow(d, first.posteam, first.defteam, startWp, endWp, endWp - startWp,
                    SumYards(g), last.totalHomeScore, last.totalAwayScore)
  }

  /**
   * A drive's summary row: its start is a play of the drive with the
   * smallest play_id, its end one with the largest; the change in win
   * probability is end minus start; the yards are summed over every play
   * of the drive; the scores are the end play's.
   */
  lemma DriveSummaryEndpoints(game: seq<Play>, d: int, winner: string, hasHomeWp: bool, hasAwayWp: bool)
    requires HasDrive(game, d)
    ensures var g := Where(game, OnDrive(d));
      |g| > 0 &&
      var r := SummarizeDrive(game, d, winner, hasHomeWp, hasAwayWp);
      var s := g[FirstIndex(g)];
      var e := g[LastIndex(g)];
      && (forall q :: q in g ==> s.playId <= q.playId <= e.playId)
      && r.drive == d
      && r.posteam == s.posteam && r.defteam == s.defteam
      && r.startWp == WinnerWp(s, winner == s.homeTeam, hasHomeWp, hasAwayWp)
      && r.endWp == WinnerWp(e, winner == s.homeTeam, hasHomeWp, hasAwayWp)
      && r.wpChange == r.endWp - r.startWp
      && r.yardsGained == SumYards(g)
      && r.totalHomeScore == e.totalHomeScore && r.totalAwayScore == e.totalAwayScore
  {
    var g := Where(game, OnDrive(d));
    DriveGroupNonEmpty(game, d);
    var first := g[FirstIndex(g)];
    var last := g[LastIndex(g)];
    assert first in g && last in g;
    assert first.drive == Some(d) && last.drive == Some(d);
    forall q | q in g ensures first.playId <= q.playId <= last.playId {
      var i :| 0 <= i < |g| && g[i] == q;
      assert q.drive == Some(d);
      assert !SortsBefore(g[i], first) && !SortsBefore(last, g[i]);
    }
  }

  /** Python truthiness of the selected season. */
  predicate SeasonSelected(season: Option<int>)
  {
    season.Some? && season.value != 0
  }

  /** The summary rows of the drives `ds`, in that order: one per drive. */
  function SummarizeDrives(game: seq<Play>, ds: seq<int>, winner: string, hasHomeWp: bool, hasAwayWp: bool)
    : (rows: seq<DriveSummaryRow>)
    requires forall d :: d in ds ==> HasDrive(game, d)
    ensures |rows| == |ds|
  {
    if ds == [] then []
    else
      SummarizeDrives(game, ds[..|ds| - 1], winner, hasHomeWp, hasAwayWp)
        + [SummarizeDrive(game, ds[|ds| - 1], winner, hasHomeWp, hasAwayWp)]
  }

  /** The k-th summary row is that of the k-th drive. */
  lemma {:induction false} SummarizeDrivesAt(game: seq<Play>, ds: seq<int>, winner: string, hasHomeWp: bool, hasAwayWp: bool, k: nat)
    requires forall d :: d in ds ==> HasDrive(game, d)
    requires k < |ds|
    ensures SummarizeDrives(game, ds, winner, hasHomeWp, hasAwayWp)[k] == SummarizeDrive(game, ds[k], winner, hasHomeWp, hasAwayWp)
    decreases |ds|
  {
    var init := ds[..|ds| - 1];
    var front := SummarizeDrives(game, init, winner, hasHomeWp, hasAwayWp);
    assert SummarizeDrives(game, ds, winner, hasHomeWp, hasAwayWp)
      == front + [SummarizeDrive(game, ds[|ds| - 1], winner, hasHomeWp, hasAwayWp)];
    if k < |ds| - 1 {
      SummarizeDrivesAt(game, init, winner, hasHomeWp, hasAwayWp, k);
      assert init[k] == ds[k];
    }
  }

  /** Extending the drive list by one drive appends that drive's row. */
  lemma SummarizeDrivesSnoc(game: seq<Play>, ds: seq<int>, winner: string, hasHomeWp: bool, hasAwayWp: bool, i: nat)
    requires forall d :: d in ds ==> HasDrive(game, d)
    requires i < |ds|
    ensures forall d :: d in ds[..i + 1] ==> HasDrive(game, d)
    ensures SummarizeDrives(game, ds[..i + 1], winner, hasHomeWp, hasAwayWp)
      == SummarizeDrives(game, ds[..i], winner, hasHomeWp, hasAwayWp) + [SummarizeDrive(game, ds[i], winner, hasHomeWp, hasAwayWp)]
  {
    assert ds[..i + 1][..i] == ds[..i];
    assert ds[..i + 1][i] == ds[i];
  }

  /**
   * The loop of the drive table: one row appended per drive number, in the
   * order of `ds`.
   */
  method SummaryRows(game: seq<Play>, ds: seq<int>, winner: string, hasHomeWp: bool, hasAwayWp: bool)
    returns (rows: seq<DriveSummaryRow>)
    requires forall d :: d in ds ==> HasDrive(game, d)
    ensures rows == SummarizeDrives(game, ds, winner, hasHomeWp, hasAwayWp)
  {
    rows := [];
    var i := 0;
    assert ds[..0] == [];
    while i < |ds|
      invariant 0 <= i <= |ds|
      invariant forall d :: d in ds[..i] ==> HasDrive(game, d)
      invariant rows == SummarizeDrives(game, ds[..i], winner, hasHomeWp, hasAwayWp)
    {
      SummarizeDrivesSnoc(game, ds, winner, hasHomeWp, hasAwayWp, i);
      assert ds[i] in ds;
      rows := rows + [SummarizeDrive(game, ds[i], winner, hasHomeWp, hasAwayWp)];
      i := i + 1;
    }
    assert ds[..i] == ds;
  }

  /**
   * What the drive-table callback produces: a table and its columns, or an
   * exception (`KeyError`) that leaves the displayed table as it was.
   */
  datatype DriveTable = Table(rows: seq<DriveSummaryRow>, columns: seq<string>) | Raised

  /**
   * The drive table of one game. `seasonFile` is the season's table, or
   * None when its file is missing: the loader then returns a frame without
   * columns and selecting `game_id` from it raises. `hasHomeWp` and
   * `hasAwayWp` say whether the table has those columns. The table has one
   * row per drive number of the game, ascending (DriveNumbers,
   * SummarizeDrivesAt).
   */
  method DisplayDriveSummary(gameId: Option<string>, season: Option<int>, seasonFile: Option<seq<Play>>,
                             hasHomeWp: bool, hasAwayWp: bool)
    returns (out: DriveTable)
    ensures !GameSelected(gameId) || !SeasonSelected(season) ==> out == Table([], [])
    ensures GameSelected(gameId) && SeasonSelected(season) && seasonFile.None? ==> out == Raised
    ensures GameSelected(gameId) && SeasonSelected(season) && seasonFile.Some? ==>
      var game := Where(seasonFile.value, InGame(gameId.value));
      && out.Table?
      && (game == [] ==> out.rows == [])
      && (game != [] ==>
            out.rows == SummarizeDrives(game, DriveNumbers(game), GameWinner(game), hasHomeWp, hasAwayWp))
    ensures out.Table? ==> out.columns == if out.rows == [] then [] else SummaryColumns
  {
    if !GameSelected(gameId) || !SeasonSelected(season) {
      return Table([], []);
    }
    if seasonFile.None? {
      return Raised;
    }
    var game := Where(seasonFile.value, InGame(gameId.value));
    if game == [] {
      return Table([], []);
    }
    var rows := SummaryRows(game, DriveNumbers(game), GameWinner(game), hasHomeWp, hasAwayWp);
    out := Table(rows, if rows == [] then [] else SummaryColumns);
  }
}
