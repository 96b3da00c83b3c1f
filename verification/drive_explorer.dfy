/**
 * The drive explorer dashboard: a per-season cache of play-by-play tables,
 * the game choices of one week, and the per-drive totals of one game.
 */
module DriveExplorer {
  import opened PlayData

  /** A game choice: the (game_id, home_team, away_team) triple of its rows. */
  datatype GameOption = GameOption(gameId: string, homeTeam: string, awayTeam: string)

  /** A drive choice and the figures its label shows. */
  datatype DriveOption = DriveOption(
    drive: int,
    numPlays: nat,
    epaTotal: real,
    wpaTotal: real,
    totalYards: int,
    startAwayScore: int,
    startHomeScore: int
  )

  function GameOf(p: Play): GameOption
  {
    GameOption(p.gameId, p.homeTeam, p.awayTeam)
  }

  ghost predicate NoDuplicates(s: seq<GameOption>)
  {
    forall i, j :: 0 <= i < j < |s| ==> s[i] != s[j]
  }

  // ---------------------------------------------------------------------
  // Game choices of one week.

  /** Position of the first occurrence of `x` in `s`. */
  function FirstPos(s: seq<GameOption>, x: GameOption): (k: nat)
    requires x in s
    ensures k < |s| && s[k] == x && x !in s[..k]
  {
    if s[0] == x then 0
    else
      var k := FirstPos(s[1..], x);
      assert s[..k + 1] == [s[0]] + s[1..][..k];
      k + 1
  }

  lemma {:induction false} FirstPosInPrefix(s: seq<GameOption>, n: nat, x: GameOption)
    requires n <= |s| && x in s[..n]
    ensures FirstPos(s, x) == FirstPos(s[..n], x)
  {
    var k, m := FirstPos(s, x), FirstPos(s[..n], x);
    assert s[..n][m] == s[m];
    assert s[..n][..m] == s[..m];
  }

  /**
   * The distinct elements of `s`, each at the place of its first
   * occurrence, as pandas' drop_duplicates keeps them.
   */
  function Dedup(s: seq<GameOption>): (r: seq<GameOption>)
    ensures NoDuplicates(r)
    ensures forall x :: x in r <==> x in s
    ensures forall i, j :: 0 <= i < j < |r| ==> FirstPos(s, r[i]) < FirstPos(s, r[j])
  {
    if s == [] then []
    else
      var init := s[..|s| - 1];
      var last := s[|s| - 1];
      var r := Dedup(init);
      assert s == init + [last];
      forall x | x in r ensures FirstPos(s, x) == FirstPos(init, x) {
        FirstPosInPrefix(s, |s| - 1, x);
      }
      if last in r then r
      else
        assert FirstPos(s, last) == |s| - 1 by {
          assert last !in init;
          assert forall j :: 0 <= j < |s| - 1 ==> s[j] == init[j];
        }
        r + [last]
  }

  /** The (game_id, home_team, away_team) column triple of each row, in row order. */
  function Triples(rows: seq<Play>): (t: seq<GameOption>)
    ensures |t| == |rows|
    ensures forall i :: 0 <= i < |rows| ==> t[i] == GameOf(rows[i])
    ensures forall g :: g in t <==> exists p :: p in rows && GameOf(p) == g
  {
    var t := seq(|rows|, i requires 0 <= i < |rows| => GameOf(rows[i]));
    assert forall g :: g in t <==> exists p :: p in rows && GameOf(p) == g by {
      forall g ensures g in t <==> exists p :: p in rows && GameOf(p) == g {
        if p :| p in rows && GameOf(p) == g {
          var i :| 0 <= i < |rows| && rows[i] == p;
          assert t[i] == g;
        }
      }
    }
    t
  }

  /**
   * The game choices of week `week`: one per distinct
   * (game_id, home_team, away_team) of the week's rows, in order of first
   * appearance; none for a week without rows.
   */
  function GameOptions(plays: seq<Play>, week: int): (r: seq<GameOption>)
    ensures NoDuplicates(r)
    ensures forall g :: g in r <==> exists p :: p in plays && p.week == week && GameOf(p) == g
    ensures Where(plays, InWeek(week)) == [] ==> r == []
    ensures var t := Triples(Where(plays, InWeek(week)));
      forall i, j :: 0 <= i < j < |r| ==> r[i] in t && r[j] in t && FirstPos(t, r[i]) < FirstPos(t, r[j])
  {
    var weekRows := Where(plays, InWeek(week));
    if weekRows == [] then []
    else Dedup(Triples(weekRows))
  }

  // ---------------------------------------------------------------------
  // Drive choices of one game.

  /** Mask `(df['week'] == week) & (df['game_id'] == gameId)`. */
  function InWeekAndGame(week: int, gameId: string): Play -> bool
  {
    (p: Play) => p.week == week && p.gameId == gameId
  }

  /** The same mask, further restricted to drive `d`. */
  function InWeekGameAndDrive(week: int, gameId: string, d: int): Play -> bool
  {
    (p: Play) => p.week == week && p.gameId == gameId && p.drive == Some(d)
  }

  /**
   * The choice for drive `d`: its number of plays, its EPA, WPA and yards
   * totals, and the score at its first row.
   */
  function DriveOptionOf(df: seq<Play>, d: int): DriveOption
    requires HasDrive(df, d)
  {
    var g := Where(df, OnDrive(d));
    DriveGroupNonEmpty(df, d);
    DriveOption(d, |g|, SumEpa(g), SumWpa(g), SumYards(g), g[0].totalAwayScore, g[0].totalHomeScore)
  }

  /** The choices for the drives `ds`, in that order: one per drive. */
  function DriveOptionsOf(df: seq<Play>, ds: seq<int>): (opts: seq<DriveOption>)
    requires forall d :: d in ds ==> HasDrive(df, d)
    ensures |opts| == |ds|
  {
    if ds == [] then []
    else DriveOptionsOf(df, ds[..|ds| - 1]) + [DriveOptionOf(df, ds[|ds| - 1])]
  }

  /** The k-th choice is that of the k-th drive. */
  lemma {:induction false} DriveOptionsAt(df: seq<Play>, ds: seq<int>, k: nat)
    requires forall d :: d in ds ==> HasDrive(df, d)
    requires k < |ds|
    ensures DriveOptionsOf(df, ds)[k] == DriveOptionOf(df, ds[k])
    decreases |ds|
  {
    var init := ds[..|ds| - 1];
    var front := DriveOptionsOf(df, init);
    assert DriveOptionsOf(df, ds) == front + [DriveOptionOf(df, ds[|ds| - 1])];
    if k < |ds| - 1 {
      DriveOptionsAt(df, init, k);
      assert init[k] == ds[k];
    }
  }

  /**
   * The choice for drive `d`: its play count is the number of rows with
   * that drive number, its totals are sums over exactly those rows, and its
   * score is that of the drive's first row in `df`.
   */
  lemma DriveOptionFields(df: seq<Play>, d: int)
    requires HasDrive(df, d)
    ensures var opt := DriveOptionOf(df, d);
      var g := Where(df, OnDrive(d));
      var first := FirstWhere(df, OnDrive(d));
      && |g| > 0
      && (forall p :: p in g <==> p in df && p.drive == Some(d))
      && opt.drive == d
      && opt.numPlays == |g|
      && opt.epaTotal == SumEpa(g)
      && opt.wpaTotal == SumWpa(g)
      && opt.totalYards == SumYards(g)
      && first < |df| && df[first].drive == Some(d)
      && opt.startAwayScore == df[first].totalAwayScore
      && opt.startHomeScore == df[first].totalHomeScore
  {
    DriveGroupNonEmpty(df, d);
    WhereFirst(df, OnDrive(d));
    assert OnDrive(d)(df[FirstWhere(df, OnDrive(d))]);
  }

  /**
   * A drive's group, taken from the week-and-game selection, starts with
   * the season's first row of that week, game and drive: no earlier row of
   * the season has all three.
   */
  lemma DriveGroupStart(season: seq<Play>, week: int, gameId: string, d: int)
    requires HasDrive(Where(season, InWeekAndGame(week, gameId)), d)
    ensures var g := Where(Where(season, InWeekAndGame(week, gameId)), OnDrive(d));
      var i := FirstWhere(season, InWeekGameAndDrive(week, gameId, d));
      && |g| > 0 && i < |season| && g[0] == season[i]
      && (forall j :: 0 <= j < i ==>
            !(season[j].week == week && season[j].gameId == gameId && season[j].drive == Some(d)))
  {
    var mask, keep := InWeekAndGame(week, gameId), InWeekGameAndDrive(week, gameId, d);
    var df := Where(season, mask);
    assert forall p :: keep(p) == (mask(p) && OnDrive(d)(p));
    WhereWhere(season, mask, OnDrive(d), keep);
    DriveGroupNonEmpty(df, d);
    WhereFirst(season, keep);
    forall j | 0 <= j < FirstWhere(season, keep)
      ensures !(season[j].week == week && season[j].gameId == gameId && season[j].drive == Some(d))
    {
      assert !keep(season[j]);
    }
  }

  /**
   * The score a drive choice shows is that of the drive's first row in the
   * season table (the row DriveGroupStart characterises).
   */
  lemma DriveStartRow(season: seq<Play>, week: int, gameId: string, d: int)
    requires HasDrive(Where(season, InWeekAndGame(week, gameId)), d)
    ensures var i := FirstWhere(season, InWeekGameAndDrive(week, gameId, d));
      var opt := DriveOptionOf(Where(season, InWeekAndGame(week, gameId)), d);
      && i < |season|
      && opt.startAwayScore == season[i].totalAwayScore
      && opt.startHomeScore == season[i].totalHomeScore
  {
    var df := Where(season, InWeekAndGame(week, gameId));
    DriveGroupStart(season, week, gameId, d);
    DriveOptionFields(df, d);
    WhereFirst(df, OnDrive(d));
  }

  function TotalPlays(opts: seq<DriveOption>): int
  {
    if opts == [] then 0 else TotalPlays(opts[..|opts| - 1]) + opts[|opts| - 1].numPlays
  }

  function TotalYards(opts: seq<DriveOption>): int
  {
    if opts == [] then 0 else TotalYards(opts[..|opts| - 1]) + opts[|opts| - 1].totalYards
  }

  lemma {:induction false} OptionTotals(df: seq<Play>, ds: seq<int>)
    requires forall d :: d in ds ==> HasDrive(df, d)
    ensures TotalPlays(DriveOptionsOf(df, ds)) == PlaysOver(df, ds)
    ensures TotalYards(DriveOptionsOf(df, ds)) == YardsOver(df, ds)
    decreases |ds|
  {
    if ds != [] {
      var init := ds[..|ds| - 1];
      OptionTotals(df, init);
      var opts := DriveOptionsOf(df, ds);
      assert opts[..|opts| - 1] == DriveOptionsOf(df, init);
    }
  }

  /**
   * The drive choices of a game account for every row that has a drive
   * number exactly once: their play counts add up to the number of such
   * rows, and their yards to those rows' yards.
   */
  lemma DriveOptionsCoverGame(df: seq<Play>)
    ensures var opts := DriveOptionsOf(df, DriveNumbers(df));
      && TotalPlays(opts) == |Where(df, OnSomeDrive)|
      && TotalYards(opts) == SumYards(Where(df, OnSomeDrive))
  {
    OptionTotals(df, DriveNumbers(df));
    DrivesPartitionPlays(df);
  }

  // ---------------------------------------------------------------------
  // The dashboard's state: tables loaded so far, by season.

  class Explorer {
    var seasonCache: map<int, seq<Play>>

    constructor ()
      ensures seasonCache == map[]
    {
      seasonCache := map[];
    }

    /**
     * Game choices for a season and week. A season already cached is
     * served from the cache whatever `files` holds; otherwise its table is
     * read from `files` (the season files on disk, already parsed) and
     * cached. A missing file yields no choices and caches nothing; no other
     * season's entry ever changes.
     */
    method UpdateGameOptions(season: Option<int>, week: Option<int>, files: map<int, seq<Play>>)
      returns (options: seq<GameOption>)
      modifies this
      ensures season.None? || week.None? ==> options == [] && seasonCache == old(seasonCache)
      ensures season.Some? && week.Some? && season.value in old(seasonCache) ==>
        seasonCache == old(seasonCache) && options == GameOptions(old(seasonCache)[season.value], week.value)
      ensures season.Some? && week.Some? && season.value !in old(seasonCache) && season.value in files ==>
        seasonCache == old(seasonCache)[season.value := files[season.value]]
        && options == GameOptions(files[season.value], week.value)
      ensures season.Some? && week.Some? && season.value !in old(seasonCache) && season.value !in files ==>
        seasonCache == old(seasonCache) && options == []
      ensures forall s :: s in old(seasonCache) ==> s in seasonCache && seasonCache[s] == old(seasonCache)[s]
      ensures forall s :: s in seasonCache && s !in old(seasonCache) ==> season == Some(s)
    {
      if season.None? || week.None? {
        return [];
      }
      var s := season.value;
      var df: seq<Play>;
      if s !in seasonCache {
        if s !in files {
          return [];
        }
        df := files[s];
        seasonCache := seasonCache[s := df];
      } else {
        df := seasonCache[s];
      }
      options := GameOptions(df, week.value);
    }

    /**
     * Drive choices for a game: nothing unless a game, season and week are
     * selected and the season is cached; otherwise one choice per drive
     * number of the game's rows in that week, ascending.
     */
    method UpdateDriveOptions(gameId: Option<string>, season: Option<int>, week: Option<int>)
      returns (options: seq<DriveOption>)
      ensures !GameSelected(gameId) || season.None? || week.None? || season.value !in seasonCache ==>
        options == []
      ensures GameSelected(gameId) && season.Some? && week.Some? && season.value in seasonCache ==>
        var df := Where(seasonCache[season.value], InWeekAndGame(week.value, gameId.value));
        options == DriveOptionsOf(df, DriveNumbers(df))
    {
      if !GameSelected(gameId) || season.None? || week.None? || season.value !in seasonCache {
        return [];
      }
      var df := Where(seasonCache[season.value], InWeekAndGame(week.value, gameId.value));
      var ds := DriveNumbers(df);
      options := [];
      var i := 0;
      assert ds[..0] == [];
      while i < |ds|
        invariant 0 <= i <= |ds|
        invariant forall d :: d in ds[..i] ==> HasDrive(df, d)
        invariant options == DriveOptionsOf(df, ds[..i])
      {
        assert ds[i] in ds;
        var group := Where(df, OnDrive(ds[i]));
        DriveGroupNonEmpty(df, ds[i]);
        var option := DriveOption(ds[i], |group|, SumEpa(group), SumWpa(group), SumYards(group),
                                  group[0].totalAwayScore, group[0].totalHomeScore);
        assert forall d :: d in ds[..i + 1] ==> HasDrive(df, d);
        assert ds[..i + 1][..i] == ds[..i];
        assert ds[..i + 1][i] == ds[i];
        assert DriveOptionsOf(df, ds[..i + 1]) == options + [option];
        options := options + [option];
        i := i + 1;
      }
      assert ds[..i] == ds;
    }
  }
}
