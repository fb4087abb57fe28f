/** One season's summary row (cleaning.py lines 139-141): `custom_mean` of
    each averaged column over the season's rows, and `Games Played`, the
    largest game number among them. */
module SeasonSummary {
  import opened Basics
  import opened Text
  import opened Rounding
  import opened GameLog
  import opened Averages

  /** `columns_to_average`, in the order of line 139. */
  const AveragedColumns: seq<string> := ["PTS", "AST", "TRB", "FG%", "MP", "FT%", "3P%", "BLK", "TOV", "STL"]

  /** The rows of season `x` in their order: one `groupby('Season')` group. */
  function SeasonRows(rows: seq<GameRow>, x: nat): (group: seq<GameRow>)
    ensures |group| <= |rows|
    ensures forall r :: r in group <==> r in rows && r.season == x
    decreases |rows|
  {
    if |rows| == 0 then []
    else
      assert rows == [rows[0]] + rows[1..];
      (if rows[0].season == x then [rows[0]] else []) + SeasonRows(rows[1..], x)
  }

  /** A single row forms a group of its own season and of no other. */
  lemma SeasonRowsOne(r: GameRow, x: nat)
    ensures SeasonRows([r], x) == if r.season == x then [r] else []
  {
    assert [r][1..] == [];
  }

  /** Grouping a concatenation groups each part: the group keeps the rows'
      order and every copy of a row. */
  lemma {:induction false} SeasonRowsAppend(a: seq<GameRow>, b: seq<GameRow>, x: nat)
    ensures SeasonRows(a + b, x) == SeasonRows(a, x) + SeasonRows(b, x)
    decreases |a|
  {
    if |a| == 0 {
      assert a + b == b;
    } else {
      assert (a + b)[0] == a[0];
      assert (a + b)[1..] == a[1..] + b;
      SeasonRowsAppend(a[1..], b, x);
    }
  }

  /** The cells of one column over some rows; `MP` is held apart from the
      other statistics. A row without the column makes the lookup raise. */
  function ColumnCells(rows: seq<GameRow>, name: string): (r: Result<seq<Cell>>)
    ensures r.Ok? <==> name == "MP" || forall k :: 0 <= k < |rows| ==> name in rows[k].stats
    ensures r.Ok? ==> (|r.value| == |rows|
      && forall k :: 0 <= k < |rows| ==> r.value[k] == if name == "MP" then rows[k].mp else rows[k].stats[name])
  {
    if name == "MP" then Ok(seq(|rows|, k requires 0 <= k < |rows| => rows[k].mp))
    else if forall k :: 0 <= k < |rows| ==> name in rows[k].stats then
      Ok(seq(|rows|, k requires 0 <= k < |rows| => rows[k].stats[name]))
    else Fails
  }

  /** `custom_mean` of one column over the rows of season `x`. */
  function SeasonAverage(rows: seq<GameRow>, x: nat, name: string): (r: Average)
    ensures r.Value? ==> IsMultipleOfUnit(r.x, RoundingDecimals(name))
    ensures ColumnCells(SeasonRows(rows, x), name).Fails? ==> r == Raises
  {
    match ColumnCells(SeasonRows(rows, x), name)
    case Fails => Raises
    case Ok(cells) => CustomMean(cells, name)
  }

  /** Lines 149-150 round the three percentage averages to three decimals
      once more; a mean already rounded to three decimals is left as it is. */
  lemma PercentageRoundingIsStable(rows: seq<GameRow>, x: nat, name: string)
    requires name == "FT%" || name == "3P%" || name == "FG%"
    ensures SeasonAverage(rows, x, name).Value? ==>
      RoundTo(SeasonAverage(rows, x, name).x, 3) == SeasonAverage(rows, x, name).x
  {
    assert OccursAt(name, name, 0);
    assert RoundingDecimals(name) == 3;
    if SeasonAverage(rows, x, name).Value? {
      RoundToKeepsMultiple(SeasonAverage(rows, x, name).x, 3);
    }
  }

  /** `max()` over game numbers, skipping missing ones; missing when all are. */
  function MaxGame(gs: seq<Option<int>>): (r: Option<int>)
    ensures r.None? <==> forall k :: 0 <= k < |gs| ==> gs[k].None?
    ensures r.Some? ==> exists k :: 0 <= k < |gs| && gs[k] == r
    ensures r.Some? ==> forall k :: 0 <= k < |gs| && gs[k].Some? ==> gs[k].value <= r.value
    decreases |gs|
  {
    if |gs| == 0 then None
    else
      var tail := MaxGame(gs[1..]);
      assert forall k :: 1 <= k < |gs| ==> gs[k] == gs[1..][k - 1];
      assert tail.Some? ==> exists k :: 1 <= k < |gs| && gs[k] == tail by {
        if tail.Some? {
          var k :| 0 <= k < |gs[1..]| && gs[1..][k] == tail;
          assert gs[k + 1] == tail;
        }
      }
      match gs[0]
      case None => tail
      case Some(g) => if tail.Some? && tail.value > g then tail else Some(g)
  }

  /** The game numbers of some rows. */
  function Games(rows: seq<GameRow>): (gs: seq<Option<int>>)
    ensures |gs| == |rows| && forall k :: 0 <= k < |rows| ==> gs[k] == rows[k].g
  {
    seq(|rows|, k requires 0 <= k < |rows| => rows[k].g)
  }

  /** `df.groupby('Season')['G'].max()` for season `x`. */
  function GamesPlayed(rows: seq<GameRow>, x: nat): Option<int> {
    MaxGame(Games(SeasonRows(rows, x)))
  }

  /** `Games Played` is the largest game number among the season's rows: it
      is missing exactly when no row of the season has one, it is the number
      of some row of the season, and no row of the season has a larger one. */
  lemma GamesPlayedIsSeasonMax(rows: seq<GameRow>, x: nat)
    ensures GamesPlayed(rows, x).None? <==>
      forall k :: 0 <= k < |rows| && rows[k].season == x ==> rows[k].g.None?
    ensures GamesPlayed(rows, x).Some? ==>
      exists k :: 0 <= k < |rows| && rows[k].season == x && rows[k].g == GamesPlayed(rows, x)
    ensures GamesPlayed(rows, x).Some? ==>
      forall k :: 0 <= k < |rows| && rows[k].season == x && rows[k].g.Some? ==>
        rows[k].g.value <= GamesPlayed(rows, x).value
  {
    var group := SeasonRows(rows, x);
    var gs := Games(group);
    var r := MaxGame(gs);
    forall k | 0 <= k < |rows| && rows[k].season == x
      ensures exists j :: 0 <= j < |group| && group[j] == rows[k]
    {
      assert rows[k] in group;
    }
    if r.Some? {
      var j :| 0 <= j < |gs| && gs[j] == r;
      assert group[j] in rows;
      var k :| 0 <= k < |rows| && rows[k] == group[j];
      assert rows[k].season == x && rows[k].g == r;
    } else {
      forall k | 0 <= k < |rows| && rows[k].season == x
        ensures rows[k].g.None?
      {
        var j :| 0 <= j < |group| && group[j] == rows[k];
        assert gs[j] == rows[k].g;
      }
    }
  }

  /** The summary row of one season. */
  datatype Summary = Summary(season: nat, averages: seq<Average>, gamesPlayed: Option<int>)

  /** The summary of season `x`: one average per averaged column, in order,
      each rounded to its column's width, and the season's games played. */
  function Summarize(rows: seq<GameRow>, x: nat): (s: Summary)
    ensures s.season == x && |s.averages| == |AveragedColumns|
    ensures forall i :: 0 <= i < |AveragedColumns| && s.averages[i].Value? ==>
      IsMultipleOfUnit(s.averages[i].x, RoundingDecimals(AveragedColumns[i]))
    ensures forall i :: 0 <= i < |AveragedColumns| ==> s.averages[i] == SeasonAverage(rows, x, AveragedColumns[i])
    ensures s.gamesPlayed == GamesPlayed(rows, x)
    ensures s.gamesPlayed.None? <==> forall k :: 0 <= k < |rows| && rows[k].season == x ==> rows[k].g.None?
    ensures s.gamesPlayed.Some? ==>
      forall k :: 0 <= k < |rows| && rows[k].season == x && rows[k].g.Some? ==> rows[k].g.value <= s.gamesPlayed.value
  {
    GamesPlayedIsSeasonMax(rows, x);
    Summary(x, seq(|AveragedColumns|, i requires 0 <= i < |AveragedColumns| => SeasonAverage(rows, x, AveragedColumns[i])),
      GamesPlayed(rows, x))
  }
}
