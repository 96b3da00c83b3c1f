/**
 * Play-by-play records shared by both dashboards, and the grouping of a
 * game's plays into drives: the sorted list of drive numbers, the plays of
 * one drive, their sums, and the first and last play in the
 * (drive, play_id) order the dashboards sort by.
 */
module PlayData {

  datatype Option<T> = None | Some(value: T)

  /** One row of a season's play-by-play table. */
  datatype Play = Play(
    gameId: string,
    season: int,
    week: int,
    playId: int,
    drive: Option<int>,          // absent on plays that belong to no drive
    homeTeam: string,
    awayTeam: string,
    posteam: string,
    defteam: string,
    yardsGained: int,
    epa: real,
    wpa: real,
    wp: real,                    // win probability of the team in possession
    homeWp: real,
    awayWp: real,
    spreadLine: Option<real>,    // pregame spread; positive favours the home team
    totalHomeScore: int,
    totalAwayScore: int
  )

  /** Python truthiness of a selected game id: neither None nor empty. */
  predicate GameSelected(gameId: Option<string>)
  {
    gameId.Some? && gameId.value != ""
  }

  // ---------------------------------------------------------------------
  // Row selection. A boolean mask (`df[mask]`) keeps the selected rows in
  // their input order; the masks the dashboards use are the keep functions
  // below.

  /** The rows of `plays` that satisfy `keep`, in input order. */
  function Where(plays: seq<Play>, keep: Play -> bool): (r: seq<Play>)
    ensures |r| <= |plays|
    ensures forall p :: p in r <==> p in plays && keep(p)
  {
    if plays == [] then []
    else
      var init := Where(plays[..|plays| - 1], keep);
      var last := plays[|plays| - 1];
      assert plays == plays[..|plays| - 1] + [last];
      if keep(last) then init + [last] else init
  }

  /** Index of the first row that satisfies `keep`, or |plays| when none does. */
  function FirstWhere(plays: seq<Play>, keep: Play -> bool): (i: nat)
    ensures i <= |plays|
    ensures i < |plays| ==> keep(plays[i])
    ensures forall j :: 0 <= j < i ==> !keep(plays[j])
  {
    if plays == [] then 0
    else
      var i := FirstWhere(plays[..|plays| - 1], keep);
      if i < |plays| - 1 || keep(plays[|plays| - 1]) then i else |plays|
  }

  /**
   * Selection keeps input order at the front: the selection is empty
   * exactly when no row qualifies, and otherwise starts with the first row
   * that does (what `iloc[0]` of the selection reads).
   */
  lemma {:induction false} WhereFirst(plays: seq<Play>, keep: Play -> bool)
    ensures Where(plays, keep) == [] <==> FirstWhere(plays, keep) == |plays|
    ensures Where(plays, keep) != [] ==> Where(plays, keep)[0] == plays[FirstWhere(plays, keep)]
    decreases |plays|
  {
    if plays != [] {
      var init := plays[..|plays| - 1];
      WhereFirst(init, keep);
      if FirstWhere(init, keep) < |init| {
        assert init[FirstWhere(init, keep)] == plays[FirstWhere(init, keep)];
      }
    }
  }

  /** Selecting with `a` and then with `b` is selecting once with `a && b`. */
  lemma {:induction false} WhereWhere(plays: seq<Play>, a: Play -> bool, b: Play -> bool, c: Play -> bool)
    requires forall p :: c(p) == (a(p) && b(p))
    ensures Where(Where(plays, a), b) == Where(plays, c)
    decreases |plays|
  {
    if plays != [] {
      var init := plays[..|plays| - 1];
      var last := plays[|plays| - 1];
      WhereWhere(init, a, b, c);
      var x := Where(init, a);
      if a(last) {
        assert (x + [last])[..|x|] == x;
      }
    }
  }

  /** Two masks that agree on every row select the same rows. */
  lemma {:induction false} WhereSame(plays: seq<Play>, a: Play -> bool, b: Play -> bool)
    requires forall i :: 0 <= i < |plays| ==> a(plays[i]) == b(plays[i])
    ensures Where(plays, a) == Where(plays, b)
    decreases |plays|
  {
    if plays != [] {
      WhereSame(plays[..|plays| - 1], a, b);
    }
  }

  /** A mask that holds for no row selects nothing. */
  lemma {:induction false} WhereNone(plays: seq<Play>, keep: Play -> bool)
    requires forall p :: !keep(p)
    ensures Where(plays, keep) == []
    decreases |plays|
  {
    if plays != [] {
      WhereNone(plays[..|plays| - 1], keep);
    }
  }

  /**
   * Two disjoint masks split the rows their union selects: the counts and
   * the yards add up.
   */
  lemma {:induction false} WhereSplit(plays: seq<Play>, c: Play -> bool, a: Play -> bool, b: Play -> bool)
    requires forall p :: c(p) == (a(p) || b(p))
    requires forall p :: !(a(p) && b(p))
    ensures |Where(plays, c)| == |Where(plays, a)| + |Where(plays, b)|
    ensures SumYards(Where(plays, c)) == SumYards(Where(plays, a)) + SumYards(Where(plays, b))
    decreases |plays|
  {
    if plays != [] {
      var init := plays[..|plays| - 1];
      WhereSplit(init, c, a, b);
      var x, y, z := Where(init, c), Where(init, a), Where(init, b);
      var last := plays[|plays| - 1];
      assert SumYards(x + [last]) == SumYards(x) + last.yardsGained by { assert (x + [last])[..|x|] == x; }
      assert SumYards(y + [last]) == SumYards(y) + last.yardsGained by { assert (y + [last])[..|y|] == y; }
      assert SumYards(z + [last]) == SumYards(z) + last.yardsGained by { assert (z + [last])[..|z|] == z; }
    }
  }

  /** Mask `df['week'] == week`. */
  function InWeek(week: int): Play -> bool
  {
    (p: Play) => p.week == week
  }

  /** Mask `df['game_id'] == gameId`. */
  function InGame(gameId: string): Play -> bool
  {
    (p: Play) => p.gameId == gameId
  }

  /** Mask `df['drive'] == d`; a missing drive never matches. */
  function OnDrive(d: int): Play -> bool
  {
    (p: Play) => p.drive == Some(d)
  }

  /** Rows whose drive number is one of `drives`. */
  function OnDriveIn(drives: seq<int>): Play -> bool
  {
    (p: Play) => p.drive.Some? && p.drive.value in drives
  }

  /** Rows that belong to some drive (`dropna` on the drive column). */
  const OnSomeDrive: Play -> bool := (p: Play) => p.drive.Some?

  // ---------------------------------------------------------------------
  // Order of game ids: Python compares strings code point by code point.

  predicate StrLess(a: string, b: string)
    decreases |a|
  {
    if |a| == 0 then |b| > 0
    else if |b| == 0 then false
    else a[0] < b[0] || (a[0] == b[0] && StrLess(a[1..], b[1..]))
  }

  lemma {:induction false} StrLessIrreflexive(a: string)
    ensures !StrLess(a, a)
    decreases |a|
  {
    if |a| > 0 {
      StrLessIrreflexive(a[1..]);
    }
  }

  lemma {:induction false} StrLessTransitive(a: string, b: string, c: string)
    requires StrLess(a, b) && StrLess(b, c)
    ensures StrLess(a, c)
    decreases |a|
  {
    if |a| > 0 && a[0] == b[0] && b[0] == c[0] {
      StrLessTransitive(a[1..], b[1..], c[1..]);
    }
  }

  lemma {:induction false} StrLessTotal(a: string, b: string)
    requires a != b
    ensures StrLess(a, b) || StrLess(b, a)
    decreases |a|
  {
    if |a| > 0 && |b| > 0 && a[0] == b[0] {
      assert a == [a[0]] + a[1..] && b == [b[0]] + b[1..];
      StrLessTotal(a[1..], b[1..]);
    }
  }

  // ---------------------------------------------------------------------
  // The (drive, play_id) order: pandas places a missing drive last.

  predicate SortsBefore(p: Play, q: Play)
  {
    if p.drive.Some? && q.drive.Some? then
      p.drive.value < q.drive.value || (p.drive.value == q.drive.value && p.playId < q.playId)
    else if p.drive.Some? then true
    else if q.drive.Some? then false
    else p.playId < q.playId
  }

  /**
   * Index of the row a stable sort by (drive, play_id) puts first: no row
   * sorts before it, and every row ahead of it in the input sorts after it.
   */
  function FirstIndex(s: seq<Play>): (k: nat)
    requires |s| > 0
    ensures k < |s|
    ensures forall i :: 0 <= i < |s| ==> !SortsBefore(s[i], s[k])
    ensures forall i :: 0 <= i < k ==> SortsBefore(s[k], s[i])
  {
    if |s| == 1 then 0
    else
      var j := FirstIndex(s[..|s| - 1]);
      if SortsBefore(s[|s| - 1], s[j]) then |s| - 1 else j
  }

  /**
   * Index of the row a stable sort by (drive, play_id) puts last: it sorts
   * before no row, and every row behind it in the input sorts before it.
   */
  function LastIndex(s: seq<Play>): (k: nat)
    requires |s| > 0
    ensures k < |s|
    ensures forall i :: 0 <= i < |s| ==> !SortsBefore(s[k], s[i])
    ensures forall i :: k < i < |s| ==> SortsBefore(s[i], s[k])
  {
    if |s| == 1 then 0
    else
      var j := LastIndex(s[..|s| - 1]);
      if SortsBefore(s[|s| - 1], s[j]) then j else |s| - 1
  }

  // ---------------------------------------------------------------------
  // Drive numbers and the plays of one drive.

  predicate HasDrive(plays: seq<Play>, d: int)
  {
    exists i :: 0 <= i < |plays| && plays[i].drive == Some(d)
  }

  ghost predicate StrictlyIncreasing(ds: seq<int>)
  {
    forall i, j :: 0 <= i < j < |ds| ==> ds[i] < ds[j]
  }

  /** Adds `d` to a strictly increasing list, keeping it strictly increasing. */
  function InsertDrive(ds: seq<int>, d: int): (r: seq<int>)
    requires StrictlyIncreasing(ds)
    ensures StrictlyIncreasing(r)
    ensures forall x :: x in r <==> x in ds || x == d
  {
    if ds == [] then [d]
    else if d == ds[0] then ds
    else if d < ds[0] then [d] + ds
    else
      var rest := InsertDrive(ds[1..], d);
      assert forall x :: x in rest ==> ds[0] < x by {
        forall x | x in rest ensures ds[0] < x {
          if x in ds[1..] {
            var i :| 0 <= i < |ds[1..]| && ds[1..][i] == x;
            assert ds[i + 1] == x;
          }
        }
      }
      var r := [ds[0]] + rest;
      forall i, j | 0 <= i < j < |r| ensures r[i] < r[j] {
        assert r[j] == rest[j - 1];
        if i > 0 {
          assert r[i] == rest[i - 1];
        } else {
          assert r[j] in rest;
        }
      }
      r
  }

  /**
   * The distinct drive numbers of `plays`, ascending; plays without a drive
   * contribute none.
   */
  function DriveNumbers(plays: seq<Play>): (ds: seq<int>)
    ensures StrictlyIncreasing(ds)
    ensures forall d :: d in ds <==> HasDrive(plays, d)
  {
    if plays == [] then []
    else
      var init := plays[..|plays| - 1];
      var last := plays[|plays| - 1];
      var ds := DriveNumbers(init);
      assert forall d :: HasDrive(plays, d) <==> HasDrive(init, d) || last.drive == Some(d) by {
        forall d ensures HasDrive(plays, d) <==> HasDrive(init, d) || last.drive == Some(d) {
          if HasDrive(plays, d) && last.drive != Some(d) {
            var i :| 0 <= i < |plays| && plays[i].drive == Some(d);
            assert init[i].drive == Some(d);
          }
          if HasDrive(init, d) {
            var i :| 0 <= i < |init| && init[i].drive == Some(d);
            assert plays[i].drive == Some(d);
          }
        }
      }
      if last.drive.Some? then
        var r := InsertDrive(ds, last.drive.value);
        assert forall d :: d in r <==> HasDrive(plays, d);
        r
      else
        assert forall d :: d in ds <==> HasDrive(plays, d);
        ds
  }

  /** A drive number that occurs is never an empty group. */
  lemma DriveGroupNonEmpty(plays: seq<Play>, d: int)
    requires HasDrive(plays, d)
    ensures |Where(plays, OnDrive(d))| > 0
  {
    var i :| 0 <= i < |plays| && plays[i].drive == Some(d);
    assert plays[i] in Where(plays, OnDrive(d));
  }

  function SumYards(plays: seq<Play>): int
  {
    if plays == [] then 0 else SumYards(plays[..|plays| - 1]) + plays[|plays| - 1].yardsGained
  }

  function SumEpa(plays: seq<Play>): real
  {
    if plays == [] then 0.0 else SumEpa(plays[..|plays| - 1]) + plays[|plays| - 1].epa
  }

  function SumWpa(plays: seq<Play>): real
  {
    if plays == [] then 0.0 else SumWpa(plays[..|plays| - 1]) + plays[|plays| - 1].wpa
  }

  // ---------------------------------------------------------------------
  // Drives partition the plays that have a drive number.

  /** Total number of plays over the drives `ds`. */
  function PlaysOver(plays: seq<Play>, ds: seq<int>): int
  {
    if ds == [] then 0 else PlaysOver(plays, ds[..|ds| - 1]) + |Where(plays, OnDrive(ds[|ds| - 1]))|
  }

  /** Total yards over the drives `ds`. */
  function YardsOver(plays: seq<Play>, ds: seq<int>): int
  {
    if ds == [] then 0 else YardsOver(plays, ds[..|ds| - 1]) + SumYards(Where(plays, OnDrive(ds[|ds| - 1])))
  }

  lemma {:induction false} OverDistinctDrives(plays: seq<Play>, ds: seq<int>)
    requires StrictlyIncreasing(ds)
    ensures PlaysOver(plays, ds) == |Where(plays, OnDriveIn(ds))|
    ensures YardsOver(plays, ds) == SumYards(Where(plays, OnDriveIn(ds)))
    decreases |ds|
  {
    if ds == [] {
      WhereNone(plays, OnDriveIn([]));
    } else {
      var init, last := ds[..|ds| - 1], ds[|ds| - 1];
      OverDistinctDrives(plays, init);
      assert last !in init;
      assert ds == init + [last];
      SplitOffDrive(plays, init, last);
    }
  }

  /** Adding a new drive number adds exactly that drive's plays and yards. */
  lemma SplitOffDrive(plays: seq<Play>, rest: seq<int>, last: int)
    requires last !in rest
    ensures |Where(plays, OnDriveIn(rest + [last]))|
         == |Where(plays, OnDrive(last))| + |Where(plays, OnDriveIn(rest))|
    ensures SumYards(Where(plays, OnDriveIn(rest + [last])))
         == SumYards(Where(plays, OnDrive(last))) + SumYards(Where(plays, OnDriveIn(rest)))
  {
    var c, a, b := OnDriveIn(rest + [last]), OnDrive(last), OnDriveIn(rest);
    forall p ensures c(p) == (a(p) || b(p)) && !(a(p) && b(p)) {
    }
    WhereSplit(plays, c, a, b);
  }

  /**
   * Grouping by drive loses and duplicates nothing: over all drive numbers,
   * the play counts add up to the number of plays with a drive, and the
   * yards to their total yards.
   */
  lemma DrivesPartitionPlays(plays: seq<Play>)
    ensures PlaysOver(plays, DriveNumbers(plays)) == |Where(plays, OnSomeDrive)|
    ensures YardsOver(plays, DriveNumbers(plays)) == SumYards(Where(plays, OnSomeDrive))
  {
    var ds := DriveNumbers(plays);
    OverDistinctDrives(plays, ds);
    forall i | 0 <= i < |plays|
      ensures OnDriveIn(ds)(plays[i]) == OnSomeDrive(plays[i])
    {
      if plays[i].drive.Some? {
        assert HasDrive(plays, plays[i].drive.value);
      }
    }
    WhereSame(plays, OnDriveIn(ds), OnSomeDrive);
  }
}
