/** Season assignment (cleaning.py lines 40-43 and 138): the season index of
    a row is the running count, in the order the rows were read, of rows whose
    rank is "1"; the label of index x is "{y+x-1}-{y+x}" where y is the year
    of the earliest date. */
module Season {
  import opened Basics
  import opened Text

  /** How many of the ranks are "1". */
  function CountSeasonStarts(ranks: seq<string>): (c: nat)
    ensures c <= |ranks|
  {
    if |ranks| == 0 then 0
    else CountSeasonStarts(ranks[..|ranks| - 1]) + (if ranks[|ranks| - 1] == "1" then 1 else 0)
  }

  /** `(df['Rk'] == '1').cumsum()`. */
  method SeasonIndices(ranks: seq<string>) returns (idx: seq<nat>)
    ensures |idx| == |ranks|
    ensures forall k :: 0 <= k < |ranks| ==> idx[k] == CountSeasonStarts(ranks[..k + 1])
    ensures |ranks| > 0 ==> idx[0] == (if ranks[0] == "1" then 1 else 0)
    ensures forall k :: 1 <= k < |ranks| ==>
      idx[k] == idx[k - 1] + (if ranks[k] == "1" then 1 else 0)
  {
    idx := [];
    var count := 0;
    var k := 0;
    while k < |ranks|
      invariant 0 <= k <= |ranks| && |idx| == k
      invariant count == CountSeasonStarts(ranks[..k])
      invariant forall j :: 0 <= j < k ==> idx[j] == CountSeasonStarts(ranks[..j + 1])
    {
      if ranks[k] == "1" {
        count := count + 1;
      }
      assert ranks[..k + 1][..k] == ranks[..k];
      idx := idx + [count];
      k := k + 1;
    }
    forall k | 1 <= k < |ranks|
      ensures idx[k] == idx[k - 1] + (if ranks[k] == "1" then 1 else 0)
    {
      assert ranks[..k + 1][..k] == ranks[..k];
    }
  }

  /** The index never decreases along the rows. */
  lemma {:induction false} SeasonIndexMonotone(ranks: seq<string>, a: nat, b: nat)
    requires a <= b <= |ranks|
    ensures CountSeasonStarts(ranks[..a]) <= CountSeasonStarts(ranks[..b])
    decreases b - a
  {
    if a < b {
      SeasonIndexMonotone(ranks, a, b - 1);
      assert ranks[..b][..b - 1] == ranks[..b - 1];
    }
  }

  /** Every index between the first row's and a later row's is taken by some
      row in between: the indices form a contiguous range. */
  lemma {:induction false} SeasonIndicesContiguous(ranks: seq<string>, b: nat, x: nat)
    requires 1 <= b <= |ranks|
    requires CountSeasonStarts(ranks[..1]) <= x <= CountSeasonStarts(ranks[..b])
    ensures exists k :: 1 <= k <= b && CountSeasonStarts(ranks[..k]) == x
    decreases b
  {
    if CountSeasonStarts(ranks[..b]) == x {
    } else {
      assert ranks[..b][..b - 1] == ranks[..b - 1];
      SeasonIndicesContiguous(ranks, b - 1, x);
      var k :| 1 <= k <= b - 1 && CountSeasonStarts(ranks[..k]) == x;
    }
  }

  /** `f"{y+x-1}-{y+x}"`; years are at least 1, as for Python dates. */
  function SeasonLabel(startYear: nat, x: nat): string
    requires startYear >= 1
  {
    NatToString(startYear + x - 1) + "-" + NatToString(startYear + x)
  }

  /** Reads "a-b" back as the pair of years (a, b). */
  function ParseSeasonLabel(name: string): Option<(nat, nat)> {
    match SplitOnce(name, '-')
    case None => None
    case Some((first, second)) =>
      match (ParseNat(first), ParseNat(second))
      case (Some(a), Some(b)) => Some((a, b))
      case _ => None
  }

  /** The label names the season's two years, and the second is the first plus one. */
  lemma SeasonLabelYears(startYear: nat, x: nat)
    requires startYear >= 1
    ensures ParseSeasonLabel(SeasonLabel(startYear, x)) == Some((startYear + x - 1, startYear + x))
  {
    var a, b := NatToString(startYear + x - 1), NatToString(startYear + x);
    assert '-' !in a by { assert forall i :: 0 <= i < |a| ==> IsDigit(a[i]); }
    assert '-' !in b by { assert forall i :: 0 <= i < |b| ==> IsDigit(b[i]); }
    SplitOnceJoin(a, b, '-');
    assert SeasonLabel(startYear, x) == a + ['-'] + b;
    ParseNatToString(startYear + x - 1);
    ParseNatToString(startYear + x);
  }

  /** Distinct indices get distinct labels, so grouping by label is grouping by index. */
  lemma SeasonLabelInjective(startYear: nat, x: nat, x': nat)
    requires startYear >= 1
    requires SeasonLabel(startYear, x) == SeasonLabel(startYear, x')
    ensures x == x'
  {
    SeasonLabelYears(startYear, x);
    SeasonLabelYears(startYear, x');
  }

  /** Consecutive indices give consecutive seasons: the next season's first
      year is this season's second. */
  lemma SeasonLabelsChain(startYear: nat, x: nat)
    requires startYear >= 1
    ensures ParseSeasonLabel(SeasonLabel(startYear, x)).Some?
    ensures ParseSeasonLabel(SeasonLabel(startYear, x + 1)).Some?
    ensures ParseSeasonLabel(SeasonLabel(startYear, x + 1)).value.0
         == ParseSeasonLabel(SeasonLabel(startYear, x)).value.1
  {
    SeasonLabelYears(startYear, x);
    SeasonLabelYears(startYear, x + 1);
  }
}
