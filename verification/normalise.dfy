/** The field normalisers of cleaning.py: minutes "M:S" to decimal minutes
    (lines 32-38), the age extraction (lines 26-30) and the numeric-rank row
    filter (line 39). */
module Normalise {
  import opened Basics
  import opened Text
  import opened Rounding
  import opened GameLog

  /* ---------------------------------------------------------------------
     Minutes played.
     --------------------------------------------------------------------- */

  /** `":" in str(minutes)`; `str` of NaN or of a float has no colon. */
  predicate HasColon(c: Cell) {
    c.Text? && ':' in c.s
  }

  /** `convert_to_decimal`: a cell with a colon must split into exactly two
      numbers, which become minutes + seconds / 60 rounded to one decimal
      (otherwise Python raises); any other cell passes through unchanged. */
  function ConvertToDecimal(c: Cell): (r: Result<Cell>)
    ensures !HasColon(c) ==> r == Ok(c)
    ensures HasColon(c) ==> (r.Ok? <==> MinutesSplit(c.s).Some?)
    ensures HasColon(c) && r.Ok? ==> r.value.Number? && IsMultipleOfUnit(r.value.x, 1)
    ensures HasColon(c) && r.Ok? ==> WithinHalfUnit(r.value.x, MinutesValue(MinutesSplit(c.s).value), 1)
  {
    if !HasColon(c) then Ok(c)
    else
      match MinutesSplit(c.s)
      case None => Fails
      case Some(parts) => Ok(Number(RoundTo(MinutesValue(parts), 1)))
  }

  /** Half a unit of the first decimal is 0.05. */
  lemma HalfUnitOfFirstDecimal(r: real, x: real)
    ensures WithinHalfUnit(r, x, 1) <==> -0.05 <= r - x <= 0.05
  {
    assert Pow10(1) == 10;
  }

  /** Minutes and seconds as decimal minutes, before rounding. */
  function MinutesValue(parts: (real, real)): real {
    parts.0 + parts.1 / 60.0
  }

  /** `min_part, sec_part = s.split(":")` followed by two `float` calls. */
  function MinutesSplit(s: string): (r: Option<(real, real)>)
    ensures r.Some? ==> r.value.0 >= 0.0 && r.value.1 >= 0.0
    ensures r.Some? ==>
      (exists a, b :: s == a + [':'] + b && ':' !in a && ':' !in b
        && ParseDecimal(a) == Some(r.value.0) && ParseDecimal(b) == Some(r.value.1))
  {
    match SplitOnce(s, ':')
    case None => None
    case Some((a, b)) =>
      match (ParseDecimal(a), ParseDecimal(b))
      case (Some(m), Some(sec)) => Some((m, sec))
      case _ => None
  }

  /** Conversely, two numbers around a single colon always split. */
  lemma MinutesSplitJoin(a: string, b: string)
    requires ':' !in a && ':' !in b
    requires ParseDecimal(a).Some? && ParseDecimal(b).Some?
    ensures MinutesSplit(a + [':'] + b) == Some((ParseDecimal(a).value, ParseDecimal(b).value))
    ensures ConvertToDecimal(Text(a + [':'] + b)).Ok?
  {
    SplitOnceJoin(a, b, ':');
    assert (a + [':'] + b)[|a|] == ':';
  }

  /** "M:S" written with digits, leading zeros allowed ("35:05", "6:00"),
      splits into the two numbers the digits spell. */
  lemma MinutesSplitDigits(m: string, s: string, mv: nat, sv: nat)
    requires ParseNat(m) == Some(mv) && ParseNat(s) == Some(sv)
    ensures MinutesSplit(m + ":" + s) == Some((mv as real, sv as real))
  {
    assert ':' !in m by { assert forall i :: 0 <= i < |m| ==> IsDigit(m[i]); }
    assert ':' !in s by { assert forall i :: 0 <= i < |s| ==> IsDigit(s[i]); }
    SplitOnceJoin(m, s, ':');
    assert m + ":" + s == m + [':'] + s;
    ParseDecimalOfDigits(m);
    ParseDecimalOfDigits(s);
  }

  /** "M:S" written with digits converts to M + S/60, rounded to one
      decimal, hence within 0.05 of the exact value. */
  lemma ConvertMinutesSeconds(m: string, s: string, mv: nat, sv: nat)
    requires ParseNat(m) == Some(mv) && ParseNat(s) == Some(sv)
    ensures ConvertToDecimal(Text(m + ":" + s)) == Ok(Number(RoundTo(mv as real + sv as real / 60.0, 1)))
    ensures -0.05 <= RoundTo(mv as real + sv as real / 60.0, 1) - (mv as real + sv as real / 60.0) <= 0.05
  {
    HalfUnitOfFirstDecimal(RoundTo(mv as real + sv as real / 60.0, 1), mv as real + sv as real / 60.0);
    var text := m + ":" + s;
    MinutesSplitDigits(m, s, mv, sv);
    assert ':' in text by { assert text[|m|] == ':'; }
    assert HasColon(Text(text));
  }

  /** No absence token holds a colon. */
  lemma AbsenceHasNoColon(t: string)
    requires t in AbsenceTokens
    ensures ':' !in t
  {
    if t == "Did Not Dress" {
    } else if t == "Inactive" {
    } else if t == "Did Not Play" {
    } else if t == "Not With Team" {
    } else if t == "Player Suspended" {
    } else {
      assert t == "Suspended";
    }
  }

  /** The absence tokens pass through the conversion unchanged. */
  lemma ConvertKeepsAbsence(c: Cell)
    requires IsAbsence(c)
    ensures ConvertToDecimal(c) == Ok(c)
  {
    AbsenceHasNoColon(c.s);
  }

  /** `df['MP'].apply(convert_to_decimal)`: the first cell that raises makes
      the whole column fail. */
  function ConvertColumn(cells: seq<Cell>): (r: Result<seq<Cell>>)
    ensures r.Ok? <==> forall k :: 0 <= k < |cells| ==> ConvertToDecimal(cells[k]).Ok?
    ensures r.Ok? ==> (|r.value| == |cells|
      && forall k :: 0 <= k < |cells| ==> ConvertToDecimal(cells[k]) == Ok(r.value[k]))
    decreases |cells|
  {
    if |cells| == 0 then Ok([])
    else
      match ConvertToDecimal(cells[0])
      case Fails => Fails
      case Ok(first) =>
        match ConvertColumn(cells[1..])
        case Fails =>
          assert exists k :: 1 <= k < |cells| && !ConvertToDecimal(cells[k]).Ok? by {
            var k :| 0 <= k < |cells[1..]| && !ConvertToDecimal(cells[1..][k]).Ok?;
            assert cells[1..][k] == cells[k + 1];
          }
          Fails
        case Ok(others) =>
          assert forall k :: 1 <= k < |cells| ==> cells[k] == cells[1..][k - 1];
          Ok([first] + others)
  }

  /* ---------------------------------------------------------------------
     Age.
     --------------------------------------------------------------------- */

  predicate DigitPairAt(s: string, i: int) {
    0 <= i && i + 1 < |s| && IsDigit(s[i]) && IsDigit(s[i + 1])
  }

  /** The leftmost position of two consecutive digits, as a regular
      expression search for `\d{2}` finds it. */
  function FirstDigitPair(s: string, from: nat): (r: Option<nat>)
    requires from <= |s|
    ensures r.Some? ==> (from <= r.value && DigitPairAt(s, r.value)
      && forall j :: from <= j < r.value ==> !DigitPairAt(s, j))
    ensures r.None? ==> forall j :: from <= j ==> !DigitPairAt(s, j)
    decreases |s| - from
  {
    if from + 1 >= |s| then None
    else if IsDigit(s[from]) && IsDigit(s[from + 1]) then Some(from)
    else FirstDigitPair(s, from + 1)
  }

  /** `str.extract('(\d{2})')` then `to_numeric`: the first two consecutive
      digits as a number, or missing. An empty cell reads as "nan". */
  function ExtractAge(age: Option<string>): (r: Option<nat>)
    ensures r.Some? ==> r.value < 100
    ensures age.None? ==> r.None?
    ensures age.Some? ==> (r.Some? <==> exists i :: DigitPairAt(age.value, i))
    ensures age.Some? && r.Some? ==>
      (exists i :: DigitPairAt(age.value, i)
        && (forall j :: 0 <= j < i ==> !DigitPairAt(age.value, j))
        && r.value == 10 * DigitValue(age.value[i]) + DigitValue(age.value[i + 1]))
  {
    match age
    case None => None
    case Some(s) =>
      match FirstDigitPair(s, 0)
      case None => None
      case Some(i) => Some(10 * DigitValue(s[i]) + DigitValue(s[i + 1]))
  }

  /** An age cell that starts with a two-digit number of years, as in
      "25-123", gives back that number. */
  lemma ExtractAgeOfYears(years: nat, rest: string)
    requires 10 <= years < 100
    ensures ExtractAge(Some(NatToString(years) + rest)) == Some(years)
  {
    var s := NatToString(years) + rest;
    assert NatToString(years / 10) == [DigitChar(years / 10)];
    assert NatToString(years) == [DigitChar(years / 10), DigitChar(years % 10)];
    assert s[0] == DigitChar(years / 10) && s[1] == DigitChar(years % 10);
    assert DigitPairAt(s, 0);
  }

  /* ---------------------------------------------------------------------
     Numeric-rank filter.
     --------------------------------------------------------------------- */

  /** `pd.to_numeric(rk, errors='coerce').notnull()`: the rank reads as a number. */
  predicate IsNumericRank(rk: string) {
    ParseDecimal(rk).Some?
  }

  /** The boolean mask of line 39: which rows have a numeric rank. */
  function NumericMask(rows: seq<RawRow>): (mask: seq<bool>)
    ensures |mask| == |rows|
    ensures forall k :: 0 <= k < |rows| ==> (mask[k] <==> IsNumericRank(rows[k].rk))
  {
    seq(|rows|, k requires 0 <= k < |rows| => IsNumericRank(rows[k].rk))
  }

  /** `df[mask]`: the rows whose mask entry is true, in order. */
  function Select(rows: seq<RawRow>, mask: seq<bool>): (kept: seq<RawRow>)
    requires |mask| == |rows|
    ensures |kept| <= |rows|
    ensures forall r :: r in kept ==> exists k :: 0 <= k < |rows| && mask[k] && rows[k] == r
    decreases |rows|
  {
    if |rows| == 0 then []
    else
      var n := |rows| - 1;
      var front := Select(rows[..n], mask[..n]);
      assert forall r :: r in front ==> exists k :: 0 <= k < n && mask[k] && rows[k] == r by {
        forall r | r in front
          ensures exists k :: 0 <= k < n && mask[k] && rows[k] == r
        {
          var k :| 0 <= k < n && mask[..n][k] && rows[..n][k] == r;
        }
      }
      if mask[n] then front + [rows[n]] else front
  }

  /** The positions, in increasing order, of the rows the mask selects. */
  function SelectedPositions(mask: seq<bool>): (ps: seq<nat>)
    decreases |mask|
  {
    if |mask| == 0 then []
    else
      var n := |mask| - 1;
      var front := SelectedPositions(mask[..n]);
      if mask[n] then front + [n] else front
  }

  /** `df[pd.to_numeric(df['Rk'], errors='coerce').notnull()]`. */
  function KeepNumericRanks(rows: seq<RawRow>): (kept: seq<RawRow>)
    ensures |kept| <= |rows|
    ensures forall r :: r in kept ==> r in rows && IsNumericRank(r.rk)
  {
    var mask := NumericMask(rows);
    var kept := Select(rows, mask);
    assert forall r :: r in kept ==> r in rows && IsNumericRank(r.rk) by {
      forall r | r in kept
        ensures r in rows && IsNumericRank(r.rk)
      {
        var k :| 0 <= k < |rows| && mask[k] && rows[k] == r;
      }
    }
    kept
  }

  /** The positions of the rows the filter keeps. */
  function KeptPositions(rows: seq<RawRow>): seq<nat> {
    SelectedPositions(NumericMask(rows))
  }

  /** The p-th selected row is the row at the p-th selected position. */
  lemma {:induction false} SelectAtPositions(rows: seq<RawRow>, mask: seq<bool>)
    requires |mask| == |rows|
    ensures |Select(rows, mask)| == |SelectedPositions(mask)|
    ensures forall p :: 0 <= p < |SelectedPositions(mask)| ==>
      SelectedPositions(mask)[p] < |rows| && Select(rows, mask)[p] == rows[SelectedPositions(mask)[p]]
    decreases |rows|
  {
    if |rows| > 0 {
      var n := |rows| - 1;
      SelectAtPositions(rows[..n], mask[..n]);
      assert forall k :: 0 <= k < n ==> rows[..n][k] == rows[k];
    }
  }

  /** The selected positions increase. */
  lemma {:induction false} SelectedPositionsIncrease(mask: seq<bool>)
    ensures forall p :: 0 <= p < |SelectedPositions(mask)| ==> SelectedPositions(mask)[p] < |mask|
    ensures forall p, q :: 0 <= p < q < |SelectedPositions(mask)| ==>
      SelectedPositions(mask)[p] < SelectedPositions(mask)[q]
    decreases |mask|
  {
    if |mask| > 0 {
      SelectedPositionsIncrease(mask[..|mask| - 1]);
    }
  }

  /** A position is selected exactly when its mask entry is true. */
  lemma {:induction false} SelectedPositionsExactly(mask: seq<bool>)
    ensures forall k :: 0 <= k < |mask| ==> (k in SelectedPositions(mask) <==> mask[k])
    decreases |mask|
  {
    if |mask| > 0 {
      var n := |mask| - 1;
      SelectedPositionsExactly(mask[..n]);
      SelectedPositionsIncrease(mask[..n]);
      assert forall k :: 0 <= k < n ==> mask[..n][k] == mask[k];
    }
  }

  /** The filter keeps exactly the numeric-rank rows, in their original
      order: the p-th kept row is the row at the p-th kept position, the
      kept positions increase, and a row is kept exactly when its rank is
      numeric. */
  lemma KeepNumericRanksExactly(rows: seq<RawRow>)
    ensures |KeepNumericRanks(rows)| == |KeptPositions(rows)|
    ensures forall p :: 0 <= p < |KeptPositions(rows)| ==>
      KeptPositions(rows)[p] < |rows| && KeepNumericRanks(rows)[p] == rows[KeptPositions(rows)[p]]
    ensures forall p, q :: 0 <= p < q < |KeptPositions(rows)| ==> KeptPositions(rows)[p] < KeptPositions(rows)[q]
    ensures forall k :: 0 <= k < |rows| ==> (k in KeptPositions(rows) <==> IsNumericRank(rows[k].rk))
  {
    var mask := NumericMask(rows);
    SelectAtPositions(rows, mask);
    SelectedPositionsIncrease(mask);
    SelectedPositionsExactly(mask);
  }
}
