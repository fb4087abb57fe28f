/** The rows of one player's game log, before and after normalisation. */
module GameLog {
  import opened Basics

  /** A row as read from the scraped table. Dates are day numbers (days since
      a fixed epoch); the columns the script only carries along are kept in
      `stats` under their header names. */
  datatype RawRow = RawRow(
    rk: string,
    date: int,
    mp: Cell,
    g: Option<int>,
    age: Option<string>,
    stats: map<string, Cell>)

  /** A row after normalisation: `mp` holds decimal minutes or the raw cell,
      `age` the extracted years, and `season` the running count of season
      starts assigned before the date sort. */
  datatype GameRow = GameRow(
    rk: string,
    date: int,
    season: nat,
    mp: Cell,
    g: Option<int>,
    age: Option<nat>,
    stats: map<string, Cell>)

  predicate DatesAscending(rows: seq<GameRow>) {
    forall a, b :: 0 <= a <= b < |rows| ==> rows[a].date <= rows[b].date
  }
}
