/** `clean_csv` for one player's game log (cleaning.py lines 20-138), from the
    scraped rows to the classified, date-sorted log: minutes conversion, the
    numeric-rank filter, season indices, age extraction, the date sort, the
    rest classification, the days-rested pass and the season labels. */
module Cleaning {
  import opened Basics
  import opened GameLog
  import opened Normalise
  import opened Season
  import opened RestClassification
  import opened DaysRested

  /* ---------------------------------------------------------------------
     The date sort (lines 46-48).
     --------------------------------------------------------------------- */

  /** A row no later than every row of a sorted log can go in front of it. */
  lemma AscendingCons(x: GameRow, t: seq<GameRow>)
    requires DatesAscending(t)
    requires forall y :: y in t ==> x.date <= y.date
    ensures DatesAscending([x] + t)
  {
    var out := [x] + t;
    forall a, b | 0 <= a <= b < |out|
      ensures out[a].date <= out[b].date
    {
      if a == 0 && b > 0 {
        assert out[b] == t[b - 1];
      } else if a > 0 {
        assert out[a] == t[a - 1] && out[b] == t[b - 1];
      }
    }
  }

  /** Puts `r` into a log before the first row that is not earlier. */
  function InsertByDate(r: GameRow, s: seq<GameRow>): (out: seq<GameRow>)
    ensures multiset(out) == multiset(s) + multiset{r}
    decreases |s|
  {
    if |s| == 0 then [r]
    else if r.date <= s[0].date then [r] + s
    else
      assert s == [s[0]] + s[1..];
      [s[0]] + InsertByDate(r, s[1..])
  }

  /** Inserting into a date-sorted log keeps it sorted. */
  lemma {:induction false} InsertKeepsAscending(r: GameRow, s: seq<GameRow>)
    requires DatesAscending(s)
    ensures DatesAscending(InsertByDate(r, s))
    decreases |s|
  {
    if |s| == 0 {
    } else if r.date <= s[0].date {
      forall y | y in s
        ensures r.date <= y.date
      {
        var j :| 0 <= j < |s| && s[j] == y;
      }
      AscendingCons(r, s);
    } else {
      assert s == [s[0]] + s[1..];
      var tail := InsertByDate(r, s[1..]);
      InsertKeepsAscending(r, s[1..]);
      forall y | y in tail
        ensures s[0].date <= y.date
      {
        assert y in multiset(tail);
        if y != r {
          assert y in multiset(s[1..]);
          var j :| 0 <= j < |s[1..]| && s[1..][j] == y;
          assert s[j + 1] == y;
        }
      }
      AscendingCons(s[0], tail);
    }
  }

  /** `sort_values(by='Date')`: a rearrangement of the rows. */
  function SortByDate(rows: seq<GameRow>): (sorted: seq<GameRow>)
    ensures multiset(sorted) == multiset(rows)
    decreases |rows|
  {
    if |rows| == 0 then []
    else
      assert rows == [rows[0]] + rows[1..];
      InsertByDate(rows[0], SortByDate(rows[1..]))
  }

  /** The sort leaves the dates ascending. */
  lemma {:induction false} SortByDateAscending(rows: seq<GameRow>)
    ensures DatesAscending(SortByDate(rows))
    decreases |rows|
  {
    if |rows| > 0 {
      SortByDateAscending(rows[1..]);
      InsertKeepsAscending(rows[0], SortByDate(rows[1..]));
    }
  }

  /* ---------------------------------------------------------------------
     The whole pass.
     --------------------------------------------------------------------- */

  /** The cleaned log: the rows in date order with their rest type, days
      rested and season label. */
  datatype CleanedLog = CleanedLog(
    rows: seq<GameRow>,
    rest: seq<RestType>,
    days: seq<int>,
    labels: seq<string>)

  /** The minutes cells of the raw rows, converted or raising. */
  function ConvertedMinutes(raw: seq<RawRow>): Result<seq<Cell>> {
    ConvertColumn(seq(|raw|, k requires 0 <= k < |raw| => raw[k].mp))
  }

  /** Line 38: the raw rows with the converted minutes in place. */
  function WithMinutes(raw: seq<RawRow>, minutes: seq<Cell>): seq<RawRow>
    requires |minutes| == |raw|
  {
    seq(|raw|, k requires 0 <= k < |raw| => raw[k].(mp := minutes[k]))
  }

  function Ranks(rows: seq<RawRow>): seq<string> {
    seq(|rows|, k requires 0 <= k < |rows| => rows[k].rk)
  }

  function MinutesColumn(rows: seq<GameRow>): seq<Cell> {
    seq(|rows|, k requires 0 <= k < |rows| => rows[k].mp)
  }

  /** A kept row with its season index and its extracted age (lines 40-43). */
  function NormalRow(r: RawRow, season: nat): GameRow {
    GameRow(r.rk, r.date, season, r.mp, r.g, ExtractAge(r.age), r.stats)
  }

  /** Lines 40-43 in closed form: each kept row with the number of season
      starts up to and including it. */
  function SeasonNumbered(kept: seq<RawRow>): (rows: seq<GameRow>)
    ensures |rows| == |kept|
  {
    seq(|kept|, k requires 0 <= k < |kept| => NormalRow(kept[k], CountSeasonStarts(Ranks(kept)[..k + 1])))
  }

  /** Lines 38-43 in closed form. */
  function Normalised(raw: seq<RawRow>, minutes: seq<Cell>): seq<GameRow>
    requires |minutes| == |raw|
  {
    SeasonNumbered(KeepNumericRanks(WithMinutes(raw, minutes)))
  }

  /** Lines 38-43 as the script runs them: the converted minutes go into the
      rows, the rows with a non-numeric rank are dropped, and the running
      season count and the extracted age are filled in. */
  method NormalisedRows(raw: seq<RawRow>, minutes: seq<Cell>) returns (rows: seq<GameRow>)
    requires |minutes| == |raw|
    ensures rows == Normalised(raw, minutes)
    ensures |rows| <= |raw|
    ensures forall k :: 0 <= k < |rows| ==> IsNumericRank(rows[k].rk)
  {
    var kept := KeepNumericRanks(WithMinutes(raw, minutes));
    var idx := SeasonIndices(Ranks(kept));
    rows := seq(|kept|, k requires 0 <= k < |kept| => NormalRow(kept[k], idx[k]));
    forall k | 0 <= k < |rows|
      ensures IsNumericRank(rows[k].rk)
    {
      assert kept[k] in kept;
    }
  }

  /** Replacing the minutes does not change which rows the filter keeps. */
  lemma MinutesKeepPositions(raw: seq<RawRow>, minutes: seq<Cell>)
    requires |minutes| == |raw|
    ensures KeptPositions(WithMinutes(raw, minutes)) == KeptPositions(raw)
  {
    assert NumericMask(WithMinutes(raw, minutes)) == NumericMask(raw);
  }

  /** The season index of the p-th kept row, one step from the previous. */
  lemma SeasonNumberedStep(kept: seq<RawRow>, p: nat)
    requires p < |kept|
    ensures SeasonNumbered(kept)[p].season
         == (if p == 0 then 0 else SeasonNumbered(kept)[p - 1].season) + (if kept[p].rk == "1" then 1 else 0)
  {
    var ranks := Ranks(kept);
    assert ranks[..p + 1][..p] == ranks[..p];
    assert ranks[p] == kept[p].rk;
    if p == 0 {
      assert ranks[..0] == [];
    }
  }

  /** The p-th row of the closed form is the raw row at the p-th kept position. */
  lemma NormalisedRowAt(raw: seq<RawRow>, minutes: seq<Cell>, p: nat)
    requires |minutes| == |raw| && p < |KeptPositions(raw)|
    ensures p < |Normalised(raw, minutes)| && KeptPositions(raw)[p] < |raw|
    ensures KeepNumericRanks(WithMinutes(raw, minutes))[p].rk == raw[KeptPositions(raw)[p]].rk
    ensures Normalised(raw, minutes)[p]
         == NormalRow(raw[KeptPositions(raw)[p]].(mp := minutes[KeptPositions(raw)[p]]), Normalised(raw, minutes)[p].season)
  {
    var with := WithMinutes(raw, minutes);
    MinutesKeepPositions(raw, minutes);
    KeepNumericRanksExactly(with);
    var kept := KeepNumericRanks(with);
    var k := KeptPositions(raw)[p];
    assert kept[p] == with[k] == raw[k].(mp := minutes[k]);
    assert Normalised(raw, minutes)[p] == SeasonNumbered(kept)[p];
  }

  /** The rows of the closed form, read against the raw rows: the p-th row
      is the raw row at the p-th numeric-rank position, with its converted
      minutes and extracted age, and its season index starts at 0 or 1 and
      grows by one exactly at a row whose rank is "1". */
  lemma NormalisedContents(raw: seq<RawRow>, minutes: seq<Cell>)
    requires |minutes| == |raw|
    ensures |Normalised(raw, minutes)| == |KeptPositions(raw)|
    ensures forall k :: 0 <= k < |raw| ==> (k in KeptPositions(raw) <==> IsNumericRank(raw[k].rk))
    ensures forall p :: 0 <= p < |KeptPositions(raw)| ==>
      KeptPositions(raw)[p] < |raw|
      && Normalised(raw, minutes)[p]
         == NormalRow(raw[KeptPositions(raw)[p]].(mp := minutes[KeptPositions(raw)[p]]), Normalised(raw, minutes)[p].season)
    ensures |KeptPositions(raw)| > 0 ==>
      Normalised(raw, minutes)[0].season == if raw[KeptPositions(raw)[0]].rk == "1" then 1 else 0
    ensures forall p :: 1 <= p < |KeptPositions(raw)| ==>
      Normalised(raw, minutes)[p].season
      == Normalised(raw, minutes)[p - 1].season + if raw[KeptPositions(raw)[p]].rk == "1" then 1 else 0
  {
    MinutesKeepPositions(raw, minutes);
    KeepNumericRanksExactly(WithMinutes(raw, minutes));
    KeepNumericRanksExactly(raw);
    var ps := KeptPositions(raw);
    var n := Normalised(raw, minutes);
    forall p | 0 <= p < |ps|
      ensures ps[p] < |raw| && n[p] == NormalRow(raw[ps[p]].(mp := minutes[ps[p]]), n[p].season)
      ensures n[p].season == (if p == 0 then 0 else n[p - 1].season) + (if raw[ps[p]].rk == "1" then 1 else 0)
    {
      NormalisedRowAt(raw, minutes, p);
      SeasonNumberedStep(KeepNumericRanks(WithMinutes(raw, minutes)), p);
    }
    if |ps| > 0 {
      NormalisedRowAt(raw, minutes, 0);
      SeasonNumberedStep(KeepNumericRanks(WithMinutes(raw, minutes)), 0);
      assert n[0].season == if raw[ps[0]].rk == "1" then 1 else 0;
    }
  }

  /** The sort keeps the number of rows and their ranks. */
  lemma SortKeepsRanks(rows: seq<GameRow>)
    requires forall k :: 0 <= k < |rows| ==> IsNumericRank(rows[k].rk)
    ensures |SortByDate(rows)| == |rows|
    ensures forall k :: 0 <= k < |SortByDate(rows)| ==> IsNumericRank(SortByDate(rows)[k].rk)
  {
    var sorted := SortByDate(rows);
    assert |multiset(sorted)| == |multiset(rows)|;
    forall k | 0 <= k < |sorted|
      ensures IsNumericRank(sorted[k].rk)
    {
      assert sorted[k] in multiset(rows);
      var j :| 0 <= j < |rows| && rows[j] == sorted[k];
    }
  }

  /** Lines 38-48 and 54-138. `startYear` is the calendar year of the
      earliest date, which the calendar conversion would supply. */
  method CleanLog(raw: seq<RawRow>, startYear: nat) returns (r: Result<CleanedLog>)
    requires startYear >= 1
    ensures r.Fails? <==> ConvertedMinutes(raw).Fails?
    ensures r.Ok? ==> (
      var log := r.value;
      |log.rest| == |log.rows| && |log.days| == |log.rows| && |log.labels| == |log.rows|
      && |log.rows| <= |raw|
      && DatesAscending(log.rows)
      && (forall k :: 0 <= k < |log.rows| ==> IsNumericRank(log.rows[k].rk))
      && (forall k :: 0 <= k < |log.rows| ==> (log.rest[k] == Normal <==> !IsAbsence(log.rows[k].mp)))
      && (forall k :: 0 <= k < |log.rows| ==> log.days[k] >= 0)
      && (forall k :: 0 <= k < |log.rows| && log.rest[k] != Normal ==> log.days[k] == 0)
      && (forall k :: 0 <= k < |log.rows| ==> log.labels[k] == SeasonLabel(startYear, log.rows[k].season)))
    ensures r.Ok? ==>
      ConvertedMinutes(raw).Ok? && |ConvertedMinutes(raw).value| == |raw|
      && multiset(r.value.rows) == multiset(Normalised(raw, ConvertedMinutes(raw).value))
    ensures r.Ok? ==>
      |r.value.rest| == |r.value.rows| && |r.value.days| == |r.value.rows|
      && (forall k :: 0 <= k < |r.value.rows| ==> r.value.rest[k] == FinalRest(MinutesColumn(r.value.rows), k))
      && (forall k :: 0 <= k < |r.value.rows| ==> r.value.days[k] == DaysRestedAt(r.value.rows, r.value.rest, k))
  {
    var minutes := ConvertedMinutes(raw);
    if minutes.Fails? {
      return Fails;
    }
    var rows := NormalisedRows(raw, minutes.value);
    var sorted := SortByDate(rows);
    SortByDateAscending(rows);
    SortKeepsRanks(rows);
    var mp := MinutesColumn(sorted);
    var rest := Classify(mp);
    var days := ComputeDaysRested(sorted, rest);
    var labels := seq(|sorted|, k requires 0 <= k < |sorted| => SeasonLabel(startYear, sorted[k].season));
    r := Ok(CleanedLog(sorted, rest, days, labels));
  }
}
