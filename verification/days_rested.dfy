/** The `Days Rested` pass of cleaning.py (lines 110-132): reset every row to
    0, then for rows 1..n-1 give a played game that does not open a season the
    day gap back to the nearest earlier `Normal` row (found by walking back
    over all earlier rows, across season boundaries), and finally force 0 on
    every row that is not `Normal`. */
module DaysRested {
  import opened Basics
  import opened GameLog
  import opened RestClassification

  /** Row k opens a season: its rank is "1" or its season index differs from
      the previous row's. */
  predicate StartsSeason(rows: seq<GameRow>, k: nat)
    requires 1 <= k < |rows|
  {
    rows[k].rk == "1" || rows[k - 1].season != rows[k].season
  }

  /** Row j is `Normal` and no row strictly between j and k is. */
  predicate NearestNormal(rest: seq<RestType>, j: nat, k: nat)
    requires j < k <= |rest|
  {
    rest[j] == Normal && forall m :: j < m < k ==> rest[m] != Normal
  }

  /** The nearest `Normal` row before row k, if any. */
  function LastNormalBefore(rest: seq<RestType>, k: nat): (r: Option<nat>)
    requires k <= |rest|
    ensures r.Some? ==> r.value < k && NearestNormal(rest, r.value, k)
    ensures r.None? ==> forall j :: 0 <= j < k ==> rest[j] != Normal
    decreases k
  {
    if k == 0 then None
    else if rest[k - 1] == Normal then Some(k - 1)
    else LastNormalBefore(rest, k - 1)
  }

  /** The days-rested value the pass gives row k. */
  function DaysRestedAt(rows: seq<GameRow>, rest: seq<RestType>, k: nat): int
    requires |rest| == |rows| && k < |rows|
  {
    if k == 0 || StartsSeason(rows, k) || rest[k] != Normal then 0
    else match LastNormalBefore(rest, k)
      case None => 0
      case Some(j) => rows[k].date - rows[j].date
  }

  /** The backward walk of lines 120-123: -1 when no earlier row is `Normal`. */
  method NearestNormalBefore(rest: seq<RestType>, i: nat) returns (j: int)
    requires 1 <= i <= |rest|
    ensures -1 <= j < i
    ensures j >= 0 ==> NearestNormal(rest, j, i)
    ensures j < 0 ==> forall m :: 0 <= m < i ==> rest[m] != Normal
  {
    j := i - 1;
    while j >= 0 && rest[j] != Normal
      invariant -1 <= j < i
      invariant forall m :: j < m < i ==> rest[m] != Normal
    {
      j := j - 1;
    }
  }

  /** Lines 110-132. */
  method ComputeDaysRested(rows: seq<GameRow>, rest: seq<RestType>) returns (days: seq<int>)
    requires |rest| == |rows|
    ensures |days| == |rows|
    ensures forall k :: 0 <= k < |rows| ==> days[k] == DaysRestedAt(rows, rest, k)
    ensures |rows| > 0 ==> days[0] == 0
    ensures forall k :: 1 <= k < |rows| && StartsSeason(rows, k) ==> days[k] == 0
    ensures forall k :: 0 <= k < |rows| && rest[k] != Normal ==> days[k] == 0
    ensures forall j, k ::
      (0 <= j < k < |rows| && !StartsSeason(rows, k) && rest[k] == Normal && NearestNormal(rest, j, k))
      ==> days[k] == rows[k].date - rows[j].date
    ensures forall k ::
      (1 <= k < |rows| && !StartsSeason(rows, k) && rest[k] == Normal && forall j :: 0 <= j < k ==> rest[j] != Normal)
      ==> days[k] == 0
    ensures DatesAscending(rows) ==> forall k :: 0 <= k < |rows| ==> days[k] >= 0
  {
    days := seq(|rows|, _ => 0);
    var i := 1;
    while i < |rows|
      invariant 1 <= i && (i <= |rows| || |rows| == 0) && |days| == |rows|
      invariant forall k :: 0 <= k < |rows| ==> days[k] == if k < i then DaysRestedAt(rows, rest, k) else 0
    {
      if rows[i].rk == "1" || rows[i - 1].season != rows[i].season {
        days := days[i := 0];
      } else if rest[i] == Normal {
        var j := NearestNormalBefore(rest, i);
        if j >= 0 {
          NearestIsLast(rest, j, i);
          days := days[i := rows[i].date - rows[j].date];
        } else {
          days := days[i := 0];
        }
      }
      i := i + 1;
    }
    days := seq(|days|, k requires 0 <= k < |days| => if rest[k] != Normal then 0 else days[k]);
    forall j, k | 0 <= j < k < |rows| && !StartsSeason(rows, k) && rest[k] == Normal && NearestNormal(rest, j, k)
      ensures days[k] == rows[k].date - rows[j].date
    {
      NearestIsLast(rest, j, k);
    }
  }

  /** The nearest earlier `Normal` row is unique. */
  lemma NearestIsLast(rest: seq<RestType>, j: nat, k: nat)
    requires j < k <= |rest| && NearestNormal(rest, j, k)
    ensures LastNormalBefore(rest, k) == Some(j)
  {
  }
}
