/** The per-season aggregation of cleaning.py: `custom_mean` (lines 5-18),
    applied to each averaged column of one season's rows (lines 139-140), and
    `Games Played`, the season's largest game number (line 141). */
module Averages {
  import opened Basics
  import opened Text
  import opened Rounding

  /** `values[~values.isin(absence tokens)]`, order kept. */
  function DropAbsences(values: seq<Cell>): (kept: seq<Cell>)
    ensures |kept| <= |values|
    ensures forall c :: c in kept <==> c in values && !IsAbsence(c)
    decreases |values|
  {
    if |values| == 0 then []
    else
      assert values == [values[0]] + values[1..];
      (if IsAbsence(values[0]) then [] else [values[0]]) + DropAbsences(values[1..])
  }

  /** Filtering a concatenation filters each part. */
  lemma {:induction false} DropAbsencesAppend(a: seq<Cell>, b: seq<Cell>)
    ensures DropAbsences(a + b) == DropAbsences(a) + DropAbsences(b)
    decreases |a|
  {
    if |a| == 0 {
      assert a + b == b;
    } else {
      assert (a + b)[0] == a[0];
      assert (a + b)[1..] == a[1..] + b;
      DropAbsencesAppend(a[1..], b);
    }
  }

  /** `round(..., 3 if any(perc in str(name) ...) else 1)`. */
  function RoundingDecimals(name: string): (d: nat)
    ensures d == 1 || d == 3
    ensures d == 3 <==> Contains(name, "FT%") || Contains(name, "3P%") || Contains(name, "FG%")
  {
    if Contains(name, "FT%") || Contains(name, "3P%") || Contains(name, "FG%") then 3 else 1
  }

  /** Any name holding a percentage pattern, at any position, gets three decimals. */
  lemma PercentageNameWidth(before: string, pattern: string, after: string)
    requires pattern == "FT%" || pattern == "3P%" || pattern == "FG%"
    ensures RoundingDecimals(before + pattern + after) == 3
  {
    var name := before + pattern + after;
    assert name[|before|..|before| + |pattern|] == pattern;
    assert OccursAt(name, pattern, |before|);
  }

  /** A name no longer than a pattern and different from it does not contain it. */
  lemma ShortNameLacks(s: string, sub: string)
    requires |s| <= |sub| && s != sub
    ensures !Contains(s, sub)
  {
    if |s| == |sub| {
      assert s[0..|sub|] == s;
    }
  }

  /** The ten averaged columns of line 139: the three percentages get three
      decimals, the others one. */
  lemma AveragedColumnDecimals()
    ensures RoundingDecimals("FG%") == 3 && RoundingDecimals("FT%") == 3 && RoundingDecimals("3P%") == 3
    ensures RoundingDecimals("PTS") == 1 && RoundingDecimals("AST") == 1 && RoundingDecimals("TRB") == 1
    ensures RoundingDecimals("MP") == 1 && RoundingDecimals("BLK") == 1
    ensures RoundingDecimals("TOV") == 1 && RoundingDecimals("STL") == 1
  {
    assert OccursAt("FG%", "FG%", 0);
    assert OccursAt("FT%", "FT%", 0);
    assert OccursAt("3P%", "3P%", 0);
    var others := ["PTS", "AST", "TRB", "MP", "BLK", "TOV", "STL"];
    forall s | s in others
      ensures !Contains(s, "FT%") && !Contains(s, "3P%") && !Contains(s, "FG%")
    {
      ShortNameLacks(s, "FT%");
      ShortNameLacks(s, "3P%");
      ShortNameLacks(s, "FG%");
    }
  }

  function Sum(xs: seq<real>): real
    decreases |xs|
  {
    if |xs| == 0 then 0.0 else xs[0] + Sum(xs[1..])
  }

  /** `np.mean`. */
  function MeanOf(xs: seq<real>): real
    requires |xs| > 0
  {
    Sum(xs) / (|xs| as real)
  }

  lemma {:induction false} SumBounds(xs: seq<real>, lo: real, hi: real)
    requires forall k :: 0 <= k < |xs| ==> lo <= xs[k] <= hi
    ensures (|xs| as real) * lo <= Sum(xs) <= (|xs| as real) * hi
    decreases |xs|
  {
    if |xs| > 0 {
      SumBounds(xs[1..], lo, hi);
    }
  }

  /** The mean lies between the smallest and the largest value. */
  lemma MeanBounds(xs: seq<real>, lo: real, hi: real)
    requires |xs| > 0
    requires forall k :: 0 <= k < |xs| ==> lo <= xs[k] <= hi
    ensures lo <= MeanOf(xs) <= hi
  {
    var n := |xs| as real;
    SumBounds(xs, lo, hi);
    DivideBoth(n * lo, Sum(xs), n);
    DivideBoth(Sum(xs), n * hi, n);
    assert n * lo / n == lo && n * hi / n == hi;
  }

  /** One `minute, second` pair of `values.str.split(":")`, as
      `int(minute) + int(second)/60`; anything else raises. */
  function MinuteSecond(c: Cell): (r: Option<real>)
    ensures r.Some? ==> r.value >= 0.0
  {
    if !c.Text? then None
    else match SplitOnce(c.s, ':')
      case None => None
      case Some((a, b)) =>
        match (ParseNat(a), ParseNat(b))
        case (Some(m), Some(s)) => Some(m as real + s as real / 60.0)
        case _ => None
  }

  /** A value unpacks exactly when it is a text of two digit strings around
      a single colon. */
  lemma MinuteSecondAccepts(c: Cell)
    ensures MinuteSecond(c).Some? <==>
      c.Text? && exists m, s :: c.s == m + [':'] + s && ParseNat(m).Some? && ParseNat(s).Some?
  {
    if c.Text? {
      if exists m, s :: c.s == m + [':'] + s && ParseNat(m).Some? && ParseNat(s).Some? {
        var m, s :| c.s == m + [':'] + s && ParseNat(m).Some? && ParseNat(s).Some?;
        assert ':' !in m by { assert forall i :: 0 <= i < |m| ==> IsDigit(m[i]); }
        assert ':' !in s by { assert forall i :: 0 <= i < |s| ==> IsDigit(s[i]); }
        SplitOnceJoin(m, s, ':');
      }
      if MinuteSecond(c).Some? {
        var (m, s) := SplitOnce(c.s, ':').value;
        assert c.s == m + [':'] + s && ParseNat(m).Some? && ParseNat(s).Some?;
      }
    }
  }

  /** The pairs of every value, or nothing when one of them raises. */
  function MinutesOf(cells: seq<Cell>): (r: Option<seq<real>>)
    ensures r.Some? <==> forall k :: 0 <= k < |cells| ==> MinuteSecond(cells[k]).Some?
    ensures r.Some? ==> (|r.value| == |cells|
      && forall k :: 0 <= k < |cells| ==> MinuteSecond(cells[k]) == Some(r.value[k]))
    decreases |cells|
  {
    if |cells| == 0 then Some([])
    else
      match MinuteSecond(cells[0])
      case None => None
      case Some(first) =>
        match MinutesOf(cells[1..])
        case None =>
          assert exists k :: 1 <= k < |cells| && MinuteSecond(cells[k]).None? by {
            var k :| 0 <= k < |cells[1..]| && MinuteSecond(cells[1..][k]).None?;
            assert cells[1..][k] == cells[k + 1];
          }
          None
        case Some(others) =>
          var all := [first] + others;
          assert forall k :: 0 <= k < |cells| ==> MinuteSecond(cells[k]) == Some(all[k]) by {
            forall k | 0 <= k < |cells|
              ensures MinuteSecond(cells[k]) == Some(all[k])
            {
              if k > 0 {
                assert cells[k] == cells[1..][k - 1] && all[k] == others[k - 1];
              }
            }
          }
          Some(all)
  }

  /** `float(c)` for a cell that `dropna` keeps: `None` for a missing cell. */
  function CellNumber(c: Cell): Option<real> {
    match c
    case Missing => None
    case Number(x) => Some(x)
    case Text(s) => ParseDecimal(s)
  }

  /** `values.dropna().astype(float)`: missing cells are dropped; a text
      that is not a number makes the conversion raise. */
  function NumbersOf(cells: seq<Cell>): (r: Result<seq<real>>)
    ensures r.Ok? <==> forall k :: 0 <= k < |cells| && cells[k].Text? ==> ParseDecimal(cells[k].s).Some?
    ensures r.Ok? ==> (|r.value| == 0 <==> forall k :: 0 <= k < |cells| ==> cells[k] == Missing)
    ensures r.Ok? ==> forall x :: x in r.value ==>
      exists k :: 0 <= k < |cells| && CellNumber(cells[k]) == Some(x)
    decreases |cells|
  {
    if |cells| == 0 then Ok([])
    else
      var tail := NumbersOf(cells[1..]);
      assert forall k :: 1 <= k < |cells| ==> cells[k] == cells[1..][k - 1];
      if cells[0] == Missing then tail
      else if CellNumber(cells[0]).None? then Fails
      else if tail.Fails? then
        assert exists k :: 1 <= k < |cells| && cells[k].Text? && ParseDecimal(cells[k].s).None? by {
          var k :| 0 <= k < |cells[1..]| && cells[1..][k].Text? && ParseDecimal(cells[1..][k].s).None?;
          assert cells[1..][k] == cells[k + 1];
        }
        Fails
      else
        assert forall x :: x in tail.value ==> exists k :: 1 <= k < |cells| && CellNumber(cells[k]) == Some(x) by {
          forall x | x in tail.value
            ensures exists k :: 1 <= k < |cells| && CellNumber(cells[k]) == Some(x)
          {
            var k :| 0 <= k < |cells[1..]| && CellNumber(cells[1..][k]) == Some(x);
            assert cells[k + 1] == cells[1..][k];
          }
        }
        Ok([CellNumber(cells[0]).value] + tail.value)
  }

  /** The conversion of one cell: dropped when missing, raising when it is
      not a number, otherwise its number. */
  lemma NumbersOfOne(c: Cell)
    ensures NumbersOf([c]) == if c == Missing then Ok([])
      else if CellNumber(c).None? then Fails
      else Ok([CellNumber(c).value])
  {
    assert [c][1..] == [];
    assert NumbersOf([]) == Ok([]);
    if CellNumber(c).Some? {
      assert [CellNumber(c).value] + [] == [CellNumber(c).value];
    }
  }

  /** The numbers of one cell in front of the numbers of the others. */
  function PrependNumber(c: Cell, rest: Result<seq<real>>): Result<seq<real>> {
    if c == Missing then rest
    else if CellNumber(c).None? || rest.Fails? then Fails
    else Ok([CellNumber(c).value] + rest.value)
  }

  /** One cell in front of the others. */
  lemma NumbersOfCons(c: Cell, t: seq<Cell>)
    ensures NumbersOf([c] + t) == PrependNumber(c, NumbersOf(t))
  {
    assert ([c] + t)[0] == c;
    assert ([c] + t)[1..] == t;
  }

  /** The numbers of two parts side by side; either part raising raises. */
  function JoinNumbers(x: Result<seq<real>>, y: Result<seq<real>>): Result<seq<real>> {
    if x.Ok? && y.Ok? then Ok(x.value + y.value) else Fails
  }

  lemma PrependJoin(c: Cell, x: Result<seq<real>>, y: Result<seq<real>>)
    ensures PrependNumber(c, JoinNumbers(x, y)) == JoinNumbers(PrependNumber(c, x), y)
  {
    if c != Missing && CellNumber(c).Some? && x.Ok? && y.Ok? {
      var v := [CellNumber(c).value];
      assert v + (x.value + y.value) == (v + x.value) + y.value;
    }
  }

  /** The step of `NumbersOfAppend`: one more cell in front of the first part. */
  lemma NumbersOfAppendStep(c: Cell, t: seq<Cell>, b: seq<Cell>)
    requires NumbersOf(t + b) == JoinNumbers(NumbersOf(t), NumbersOf(b))
    ensures NumbersOf([c] + t + b) == JoinNumbers(NumbersOf([c] + t), NumbersOf(b))
  {
    assert [c] + t + b == [c] + (t + b);
    NumbersOfCons(c, t);
    NumbersOfCons(c, t + b);
    PrependJoin(c, NumbersOf(t), NumbersOf(b));
  }

  /** Converting a concatenation converts each part: the numbers come back
      in order, one per non-missing cell, and either part raising raises. */
  lemma {:induction false} NumbersOfAppend(a: seq<Cell>, b: seq<Cell>)
    ensures NumbersOf(a + b) == JoinNumbers(NumbersOf(a), NumbersOf(b))
    decreases |a|
  {
    if |a| == 0 {
      assert a + b == b;
      assert NumbersOf(a) == Ok([]);
      if NumbersOf(b).Ok? {
        assert [] + NumbersOf(b).value == NumbersOf(b).value;
      }
    } else {
      assert a == [a[0]] + a[1..];
      NumbersOfAppend(a[1..], b);
      NumbersOfAppendStep(a[0], a[1..], b);
    }
  }

  /** Which branch of `custom_mean` the first remaining value selects. */
  datatype Branch = FragmentBranch | ColonBranch | NumericBranch

  function BranchOf(first: Cell): (b: Branch)
    ensures b == FragmentBranch <==> first.Text? && Contains(first.s, "..")
    ensures b == ColonBranch <==> first.Text? && !Contains(first.s, "..") && ':' in first.s
  {
    if first.Text? && Contains(first.s, "..") then FragmentBranch
    else if first.Text? && ':' in first.s then ColonBranch
    else NumericBranch
  }

  /** What `custom_mean` returns: `None`, a rounded mean, the result of the
      percentage-fragment branch (not modelled further), or an exception. */
  datatype Average = NoValue | Value(x: real) | Fragments | Raises

  /** The body of `custom_mean` after the absence tokens are gone: the first
      remaining value picks the branch, the column name the rounding width. */
  function MeanOfRemaining(kept: seq<Cell>, name: string): (r: Average)
    ensures |kept| == 0 ==> r == NoValue
    ensures |kept| > 0 && BranchOf(kept[0]) == FragmentBranch ==> r == Fragments
    ensures r.Value? ==> IsMultipleOfUnit(r.x, RoundingDecimals(name))
    ensures |kept| > 0 && BranchOf(kept[0]) == ColonBranch ==>
      (r.Value? <==> MinutesOf(kept).Some?) && (r.Value? || r == Raises)
      && (r.Value? ==> WithinHalfUnit(r.x, Sum(MinutesOf(kept).value) / (|kept| as real), RoundingDecimals(name)))
    ensures |kept| > 0 && BranchOf(kept[0]) == NumericBranch ==>
      (r == Raises <==> NumbersOf(kept).Fails?)
      && (r == NoValue <==> NumbersOf(kept) == Ok([]))
      && (r.Value? ==>
            NumbersOf(kept).Ok? && |NumbersOf(kept).value| > 0
            && WithinHalfUnit(r.x, MeanOf(NumbersOf(kept).value), RoundingDecimals(name)))
  {
    var d := RoundingDecimals(name);
    if |kept| == 0 then NoValue
    else match BranchOf(kept[0])
      case FragmentBranch => Fragments
      case ColonBranch =>
        (match MinutesOf(kept)
         case None => Raises
         case Some(ms) => Value(RoundTo(Sum(ms) / (|kept| as real), d)))
      case NumericBranch =>
        (match NumbersOf(kept)
         case Fails => Raises
         case Ok(xs) => if |xs| == 0 then NoValue else Value(RoundTo(MeanOf(xs), d)))
  }

  /** `custom_mean(values)` for a column called `name`: the absence tokens
      are removed first, and a column of nothing but absences has no mean. */
  function CustomMean(values: seq<Cell>, name: string): (r: Average)
    ensures (forall k :: 0 <= k < |values| ==> IsAbsence(values[k])) ==> r == NoValue
    ensures r.Value? ==> IsMultipleOfUnit(r.x, RoundingDecimals(name))
  {
    var kept := DropAbsences(values);
    assert (forall k :: 0 <= k < |values| ==> IsAbsence(values[k])) ==> |kept| == 0 by {
      if |kept| > 0 {
        assert kept[0] in kept;
      }
    }
    MeanOfRemaining(kept, name)
  }

  lemma CustomMeanUnfold(values: seq<Cell>, name: string)
    ensures CustomMean(values, name) == MeanOfRemaining(DropAbsences(values), name)
  {
  }

  /** An absence token anywhere in the column does not change the mean. */
  lemma CustomMeanIgnoresAbsence(a: seq<Cell>, t: Cell, b: seq<Cell>, name: string)
    requires IsAbsence(t)
    ensures CustomMean(a + [t] + b, name) == CustomMean(a + b, name)
  {
    assert DropAbsences([t]) == [] by {
      assert [t][1..] == [];
    }
    SameRemainingSameMean(a + [t] + b, a + b, name) by {
      DropAbsencesAppend(a + [t], b);
      DropAbsencesAppend(a, [t]);
      DropAbsencesAppend(a, b);
    }
  }

  lemma SameRemainingSameMean(x: seq<Cell>, y: seq<Cell>, name: string)
    requires DropAbsences(x) == DropAbsences(y)
    ensures CustomMean(x, name) == CustomMean(y, name)
  {
    CustomMeanUnfold(x, name);
    CustomMeanUnfold(y, name);
  }

  /** In the numeric branch the mean lies, up to rounding, between the
      smallest and the largest number of the column. */
  lemma CustomMeanWithinRange(values: seq<Cell>, name: string, lo: real, hi: real)
    requires forall k :: 0 <= k < |values| && CellNumber(values[k]).Some? ==>
      lo <= CellNumber(values[k]).value <= hi
    requires CustomMean(values, name).Value?
    requires BranchOf(DropAbsences(values)[0]) == NumericBranch
    ensures var p := Pow10(RoundingDecimals(name)) as real;
      lo - 0.5 / p <= CustomMean(values, name).x <= hi + 0.5 / p
  {
    var kept := DropAbsences(values);
    CustomMeanUnfold(values, name);
    forall j | 0 <= j < |kept| && CellNumber(kept[j]).Some?
      ensures lo <= CellNumber(kept[j]).value <= hi
    {
      assert kept[j] in kept;
      var i :| 0 <= i < |values| && values[i] == kept[j];
    }
    RemainingWithinRange(kept, name, lo, hi);
  }

  lemma RemainingWithinRange(kept: seq<Cell>, name: string, lo: real, hi: real)
    requires forall k :: 0 <= k < |kept| && CellNumber(kept[k]).Some? ==>
      lo <= CellNumber(kept[k]).value <= hi
    requires MeanOfRemaining(kept, name).Value?
    requires BranchOf(kept[0]) == NumericBranch
    ensures var p := Pow10(RoundingDecimals(name)) as real;
      lo - 0.5 / p <= MeanOfRemaining(kept, name).x <= hi + 0.5 / p
  {
    var xs := NumbersOf(kept).value;
    forall k | 0 <= k < |xs|
      ensures lo <= xs[k] <= hi
    {
      assert xs[k] in xs;
      var j :| 0 <= j < |kept| && CellNumber(kept[j]) == Some(xs[k]);
    }
    MeanBounds(xs, lo, hi);
  }

  /** A text without a point has no ".." fragment. */
  lemma NoPointNoFragments(s: string)
    requires '.' !in s
    ensures !Contains(s, "..")
  {
    forall i | 0 <= i <= |s| - 2
      ensures !OccursAt(s, "..", i)
    {
      assert s[i..i + 2][0] == s[i] != '.';
    }
  }

  lemma MinuteSecondOfDigits(m: string, s: string, mv: nat, sv: nat)
    requires ParseNat(m) == Some(mv) && ParseNat(s) == Some(sv)
    ensures MinuteSecond(Text(m + ":" + s)) == Some(mv as real + sv as real / 60.0)
  {
    assert ':' !in m && ':' !in s;
    var text := m + ":" + s;
    assert text == m + [':'] + s;
    SplitOnceJoin(m, s, ':');
    assert SplitOnce(text, ':') == Some((m, s));
    assert MinuteSecond(Text(text)) == Some(mv as real + sv as real / 60.0);
  }

  lemma RoundExample()
    ensures RoundTo(5.75, 1) == 5.8
  {
    assert Pow10(1) == 10;
    assert RoundHalfEven(57.5) == 58 by {
      assert (57.5).Floor == 57;
    }
  }

  lemma ExampleParses()
    ensures ParseNat("5") == Some(5) && ParseNat("6") == Some(6) && ParseNat("00") == Some(0)
    ensures ParseNat("30") == Some(30)
  {
    assert "30"[..1] == "3";
    assert "3"[..0] == "";
    assert DigitsValue("3") == 3;
    assert DigitsValue("30") == 30;
  }

  lemma ExampleMinuteSeconds()
    ensures MinuteSecond(Text("5:30")) == Some(5.5) && MinuteSecond(Text("6:00")) == Some(6.0)
  {
    ExampleParses();
    MinuteSecondOfDigits("5", "30", 5, 30);
    MinuteSecondOfDigits("6", "00", 6, 0);
    assert "5" + ":" + "30" == "5:30" && "6" + ":" + "00" == "6:00";
  }

  lemma MinutesOfPair(a: Cell, b: Cell, x: real, y: real)
    requires MinuteSecond(a) == Some(x) && MinuteSecond(b) == Some(y)
    ensures MinutesOf([a, b]) == Some([x, y])
  {
    var single := [b];
    assert single[1..] == [];
    assert MinutesOf(single[1..]) == Some([]);
    assert [y] + [] == [y];
    assert MinutesOf(single) == Some([y]);
    var pair := [a, b];
    assert pair[1..] == single;
    assert [x] + [y] == [x, y];
  }

  lemma ExampleKept()
    ensures DropAbsences([Text("5:30"), Text("Did Not Play"), Text("6:00")]) == [Text("5:30"), Text("6:00")]
  {
    var values := [Text("5:30"), Text("Did Not Play"), Text("6:00")];
    assert values[1..] == [Text("Did Not Play"), Text("6:00")];
    assert values[1..][1..] == [Text("6:00")];
    assert values[1..][1..][1..] == [];
  }

  lemma RemainingColonValue(kept: seq<Cell>, name: string, ms: seq<real>)
    requires |kept| > 0 && BranchOf(kept[0]) == ColonBranch && MinutesOf(kept) == Some(ms)
    ensures MeanOfRemaining(kept, name) == Value(RoundTo(Sum(ms) / (|kept| as real), RoundingDecimals(name)))
  {
  }

  lemma ExampleBranch()
    ensures BranchOf(Text("5:30")) == ColonBranch
  {
    NoPointNoFragments("5:30");
    assert "5:30"[1] == ':';
  }

  lemma ExampleSum()
    ensures Sum([5.5, 6.0]) / 2.0 == 5.75
  {
    assert [5.5, 6.0][1..] == [6.0];
    assert [6.0][1..] == [];
  }


  lemma ExampleRemaining(kept: seq<Cell>, name: string)
    requires |kept| == 2 && BranchOf(kept[0]) == ColonBranch
    requires MinuteSecond(kept[0]) == Some(5.5) && MinuteSecond(kept[1]) == Some(6.0)
    requires RoundingDecimals(name) == 1
    ensures MeanOfRemaining(kept, name) == Value(5.8)
  {
    MinutesOfPair(kept[0], kept[1], 5.5, 6.0);
    assert kept == [kept[0], kept[1]];
    ExampleSum();
    RoundExample();
    RemainingColonValue(kept, name, [5.5, 6.0]);
  }

  /** Two "M:S" values around an absence: (5.5 + 6) / 2 = 5.75, a tie that
      rounds to the even 5.8. */
  lemma CustomMeanMinutesExample()
    ensures CustomMean([Text("5:30"), Text("Did Not Play"), Text("6:00")], "MP") == Value(5.8)
  {
    var kept := [Text("5:30"), Text("6:00")];
    ExampleKept();
    ExampleBranch();
    ExampleMinuteSeconds();
    AveragedColumnDecimals();
    CustomMeanUnfold([Text("5:30"), Text("Did Not Play"), Text("6:00")], "MP");
    ExampleRemaining(kept, "MP");
  }
}
