/** The rest classification of cleaning.py: every row starts `Normal`, absence
    rows are preset to `Load Management`, and then a forward loop over rows
    1..n-1 escalates long absence runs to `Injured/Illness`, softens the last
    three rows of such a run, and, on every iteration, runs an adjacency pass
    over rows 1..n-2 that absorbs `Load Management` rows next to injured ones.

    `Classify` follows that loop step by step; `FinalRest` says in closed form
    what it computes, and `Classify`'s contract proves the two agree. */
module RestClassification {
  import opened Basics

  datatype RestType = Normal | LoadManagement | InjuredIllness

  /* ---------------------------------------------------------------------
     Absence runs. A run is taken among the indices >= 1 only: row 0 is never
     revisited by the loop, so it never belongs to the run the loop sees.
     --------------------------------------------------------------------- */

  /** First index (>= 1) of the absence run through row k. */
  function RunStart(mp: seq<Cell>, k: nat): (s: nat)
    requires 1 <= k < |mp| && IsAbsence(mp[k])
    ensures 1 <= s <= k
    ensures forall j :: s <= j <= k ==> IsAbsence(mp[j])
    ensures s == 1 || !IsAbsence(mp[s - 1])
    decreases k
  {
    if k == 1 || !IsAbsence(mp[k - 1]) then k else RunStart(mp, k - 1)
  }

  /** One past the last index of the absence run through row k. */
  function RunEnd(mp: seq<Cell>, k: nat): (e: nat)
    requires k < |mp| && IsAbsence(mp[k])
    ensures k < e <= |mp|
    ensures forall j :: k <= j < e ==> IsAbsence(mp[j])
    ensures e == |mp| || !IsAbsence(mp[e])
    decreases |mp| - k
  {
    if k + 1 == |mp| || !IsAbsence(mp[k + 1]) then k + 1 else RunEnd(mp, k + 1)
  }

  function RunLength(mp: seq<Cell>, k: nat): nat
    requires 1 <= k < |mp| && IsAbsence(mp[k])
  {
    RunEnd(mp, k) - RunStart(mp, k)
  }

  /** Every row of the run through i has the same run bounds as i. */
  lemma SameRun(mp: seq<Cell>, i: nat, k: nat)
    requires 1 <= i < |mp| && IsAbsence(mp[i])
    requires RunStart(mp, i) <= k < RunEnd(mp, i)
    ensures IsAbsence(mp[k])
    ensures RunStart(mp, k) == RunStart(mp, i) && RunEnd(mp, k) == RunEnd(mp, i)
  {
    var s, e := RunStart(mp, i), RunEnd(mp, i);
    assert IsAbsence(mp[k]) by {
      if k <= i { assert s <= k <= i; } else { assert i <= k < e; }
    }
  }

  /** Two adjacent absence rows (both at index >= 1) lie in the same run. */
  lemma NextInRun(mp: seq<Cell>, k: nat)
    requires 1 <= k && k + 1 < |mp| && IsAbsence(mp[k]) && IsAbsence(mp[k + 1])
    ensures RunStart(mp, k + 1) == RunStart(mp, k) && RunEnd(mp, k + 1) == RunEnd(mp, k)
  {
    assert RunEnd(mp, k) > k + 1;
    SameRun(mp, k, k + 1);
  }

  /* ---------------------------------------------------------------------
     The net effect.
     --------------------------------------------------------------------- */

  /** The label the classification leaves on row k: `Normal` for a played
      game; for an absence row, `Load Management` at the first and last row
      and for a run (among rows >= 1) of at most three games, and
      `Injured/Illness` for a longer run. */
  function FinalRest(mp: seq<Cell>, k: nat): RestType
    requires k < |mp|
  {
    if !IsAbsence(mp[k]) then Normal
    else if k == 0 || k == |mp| - 1 then LoadManagement
    else if RunLength(mp, k) > 3 then InjuredIllness
    else LoadManagement
  }

  /** The label row k carries when outer iteration i begins (i >= 1): runs
      whose first row was visited and that are longer than three are injured,
      except that the last row falls back to `Load Management` once the final
      iteration has reset it. */
  function LabelBefore(mp: seq<Cell>, i: nat, k: nat): RestType
    requires k < |mp|
  {
    if !IsAbsence(mp[k]) then Normal
    else if k == 0 then LoadManagement
    else if k == |mp| - 1 && i >= |mp| then LoadManagement
    else if RunStart(mp, k) < i && RunLength(mp, k) > 3 then InjuredIllness
    else LoadManagement
  }

  /** The label row k carries in iteration i just before the adjacency pass. */
  function BeforeAbsorb(mp: seq<Cell>, i: nat, k: nat): RestType
    requires 1 <= i < |mp| && k < |mp|
  {
    if IsAbsence(mp[i]) && RunStart(mp, i) <= k < RunEnd(mp, i) then
      var s, e := RunStart(mp, i), RunEnd(mp, i);
      if e - s <= 3 then LoadManagement
      else if s == i then (if e < |mp| && e - 3 <= k then LoadManagement else InjuredIllness)
      else if k == i && e - i <= 3 then LoadManagement
      else InjuredIllness
    else LabelBefore(mp, i, k)
  }

  /* ---------------------------------------------------------------------
     The loop, pass by pass.
     --------------------------------------------------------------------- */

  /** The preset: `Normal` everywhere, `Load Management` on absence rows. */
  function Preset(mp: seq<Cell>): (rest: seq<RestType>)
    ensures |rest| == |mp|
    ensures forall k :: 0 <= k < |mp| ==> rest[k] == LabelBefore(mp, 1, k)
  {
    seq(|mp|, k requires 0 <= k < |mp| => if IsAbsence(mp[k]) then LoadManagement else Normal)
  }

  /** The look-ahead: how many consecutive absence rows start at row i. */
  method LookAhead(mp: seq<Cell>, i: nat) returns (count: nat)
    requires i < |mp| && IsAbsence(mp[i])
    ensures count >= 1 && i + count <= |mp|
    ensures forall j :: i <= j < i + count ==> IsAbsence(mp[j])
    ensures i + count == |mp| || !IsAbsence(mp[i + count])
    ensures i + count == RunEnd(mp, i)
  {
    count := 1;
    var j := i;
    while j + 1 < |mp| && IsAbsence(mp[j + 1])
      invariant i <= j < |mp| && count == j - i + 1
      invariant IsAbsence(mp[j])
      invariant RunEnd(mp, j) == RunEnd(mp, i)
      decreases |mp| - j
    {
      count := count + 1;
      j := j + 1;
    }
  }

  /** Marks rows lo..hi-1 `Injured/Illness`. */
  method MarkInjured(rest: seq<RestType>, lo: nat, hi: nat) returns (out: seq<RestType>)
    requires lo <= hi <= |rest|
    ensures |out| == |rest|
    ensures forall k :: 0 <= k < |rest| ==> out[k] == (if lo <= k < hi then InjuredIllness else rest[k])
  {
    out := rest;
    var j := lo;
    while j < hi
      invariant lo <= j <= hi && |out| == |rest|
      invariant forall k :: 0 <= k < |rest| ==> out[k] == (if lo <= k < j then InjuredIllness else rest[k])
    {
      out := out[j := InjuredIllness];
      j := j + 1;
    }
  }

  /** Demotes the injured rows among lo..hi-1 back to `Load Management`. */
  method Soften(rest: seq<RestType>, lo: nat, hi: nat) returns (out: seq<RestType>)
    requires lo <= hi <= |rest|
    ensures |out| == |rest|
    ensures forall k :: 0 <= k < |rest| ==>
      out[k] == (if lo <= k < hi && rest[k] == InjuredIllness then LoadManagement else rest[k])
  {
    out := rest;
    var j := lo;
    while j < hi
      invariant lo <= j <= hi && |out| == |rest|
      invariant forall k :: 0 <= k < |rest| ==>
        out[k] == (if lo <= k < j && rest[k] == InjuredIllness then LoadManagement else rest[k])
    {
      if out[j] == InjuredIllness {
        out := out[j := LoadManagement];
      }
      j := j + 1;
    }
  }

  /** One step of the adjacency pass: a `Load Management` row next to an
      injured row becomes injured. */
  function Absorb(here: RestType, left: RestType, right: RestType): RestType {
    if here == LoadManagement && (left == InjuredIllness || right == InjuredIllness) then InjuredIllness
    else here
  }

  /** Row k of `out` is row k of `rest` after its adjacency step. */
  predicate AbsorbedAt(rest: seq<RestType>, out: seq<RestType>, k: nat)
    requires 1 <= k < |rest| - 1 && |out| == |rest|
  {
    out[k] == Absorb(rest[k], out[k - 1], rest[k + 1])
  }

  /** The adjacency pass: left to right over rows 1..n-2, each row is judged
      against its left neighbour as already updated and its right neighbour
      as not yet visited. */
  method AbsorbAdjacent(rest: seq<RestType>) returns (out: seq<RestType>)
    ensures |out| == |rest|
    ensures forall k :: 0 <= k < |rest| && !(1 <= k < |rest| - 1) ==> out[k] == rest[k]
    ensures forall k :: 1 <= k < |rest| - 1 ==> AbsorbedAt(rest, out, k)
    ensures forall k :: 0 <= k < |rest| && out[k] != rest[k] ==>
      rest[k] == LoadManagement && out[k] == InjuredIllness
  {
    out := rest;
    var j := 1;
    while j < |rest| - 1
      invariant (if |rest| < 2 then j == 1 else 1 <= j <= |rest| - 1) && |out| == |rest|
      invariant forall k :: j <= k < |rest| ==> out[k] == rest[k]
      invariant |rest| > 0 ==> out[0] == rest[0]
      invariant forall k :: 1 <= k < j && k < |rest| - 1 ==> AbsorbedAt(rest, out, k)
      invariant forall k :: 0 <= k < |rest| && out[k] != rest[k] ==>
        rest[k] == LoadManagement && out[k] == InjuredIllness
    {
      ghost var before := out;
      if out[j] == LoadManagement && (out[j - 1] == InjuredIllness || out[j + 1] == InjuredIllness) {
        out := out[j := InjuredIllness];
      }
      assert AbsorbedAt(rest, out, j);
      forall k | 1 <= k < j
        ensures AbsorbedAt(rest, out, k)
      {
        assert AbsorbedAt(rest, before, k);
      }
      j := j + 1;
    }
  }

  /** What lines 64-99 of outer iteration i leave on row k, given the labels
      `rest` the iteration started with. */
  function EscalatedLabel(mp: seq<Cell>, rest: seq<RestType>, i: nat, k: nat): RestType
    requires 1 <= i < |mp| && |rest| == |mp| && k < |mp|
  {
    if !IsAbsence(mp[i]) then rest[k]
    else
      var e := RunEnd(mp, i);
      if i <= k < e && e - i > 3 then
        (if e < |mp| && rest[i - 1] != InjuredIllness && e - 3 <= k then LoadManagement else InjuredIllness)
      else if k == i then LoadManagement
      else rest[k]
  }

  /** Lines 64-99 of one outer iteration: reset row i, look ahead, escalate a
      run longer than three, and soften its last three rows when the run ends
      before the data does and the row before it is not injured. */
  method EscalateRun(mp: seq<Cell>, rest: seq<RestType>, i: nat) returns (out: seq<RestType>)
    requires 1 <= i < |mp| && |rest| == |mp|
    ensures |out| == |mp|
    ensures forall k :: 0 <= k < |mp| ==> out[k] == EscalatedLabel(mp, rest, i, k)
  {
    out := rest;
    if IsAbsence(mp[i]) {
      out := out[i := LoadManagement];
      var count := LookAhead(mp, i);
      var periodEnd := i + count;
      if count > 3 {
        out := MarkInjured(out, i, periodEnd);
      }
      if periodEnd < |mp| && count > 3 {
        if i > 0 && out[i - 1] != InjuredIllness {
          out := Soften(out, periodEnd - 3, periodEnd);
        }
      }
    }
  }

  /** Started from the labels `LabelBefore(mp, i, _)`, lines 64-99 leave
      `BeforeAbsorb(mp, i, _)`. */
  lemma EscalatedIsBeforeAbsorb(mp: seq<Cell>, i: nat, rest: seq<RestType>, k: nat)
    requires 1 <= i < |mp| && |rest| == |mp| && k < |mp|
    requires forall j :: 0 <= j < |mp| ==> rest[j] == LabelBefore(mp, i, j)
    ensures EscalatedLabel(mp, rest, i, k) == BeforeAbsorb(mp, i, k)
  {
    if IsAbsence(mp[i]) {
      var s, e := RunStart(mp, i), RunEnd(mp, i);
      if s <= k < e {
        SameRun(mp, i, k);
        if s == i {
          // The row before a run's first row is row 0 or a played game.
          assert rest[i - 1] != InjuredIllness;
        } else {
          SameRun(mp, i, i - 1);
          if e - s > 3 {
            assert rest[i - 1] == InjuredIllness;
          }
        }
      }
    }
  }

  /* Row by row, the adjacency pass of iteration i turns `BeforeAbsorb(mp, i, _)`
     into `LabelBefore(mp, i + 1, _)`. The next lemmas prove the step for one
     row, by the kind of row. */

  predicate InCurrentRun(mp: seq<Cell>, i: nat, k: nat)
    requires 1 <= i < |mp|
  {
    IsAbsence(mp[i]) && RunStart(mp, i) <= k < RunEnd(mp, i)
  }

  predicate AbsorbStepHolds(mp: seq<Cell>, i: nat, k: nat)
    requires 1 <= i < |mp| && k < |mp|
  {
    LabelBefore(mp, i + 1, k) ==
      if 1 <= k < |mp| - 1
      then Absorb(BeforeAbsorb(mp, i, k), LabelBefore(mp, i + 1, k - 1), BeforeAbsorb(mp, i, k + 1))
      else BeforeAbsorb(mp, i, k)
  }

  lemma PlayedRow(mp: seq<Cell>, i: nat, k: nat)
    requires 1 <= i < |mp| && k < |mp| && !IsAbsence(mp[k])
    ensures BeforeAbsorb(mp, i, k) == Normal && LabelBefore(mp, i + 1, k) == Normal
  {
    if InCurrentRun(mp, i, k) {
      SameRun(mp, i, k);
    }
  }

  /** A row outside the run through i keeps its label across iteration i. */
  lemma OutsideRunUnchanged(mp: seq<Cell>, i: nat, k: nat)
    requires 1 <= i < |mp| && 1 <= k < |mp| && IsAbsence(mp[k])
    requires !InCurrentRun(mp, i, k)
    ensures BeforeAbsorb(mp, i, k) == LabelBefore(mp, i, k) == LabelBefore(mp, i + 1, k)
  {
  }

  /** Outside the current run, a `Load Management` row's neighbours are row 0,
      played games, or rows of its own run, which carry its label. */
  lemma LeftOfQuietRow(mp: seq<Cell>, i: nat, k: nat)
    requires 1 <= i < |mp| && 1 <= k < |mp| && IsAbsence(mp[k])
    requires !InCurrentRun(mp, i, k) && LabelBefore(mp, i, k) == LoadManagement
    ensures LabelBefore(mp, i + 1, k - 1) != InjuredIllness
  {
    if k - 1 >= 1 && IsAbsence(mp[k - 1]) {
      NextInRun(mp, k - 1);
      assert !InCurrentRun(mp, i, k - 1);
      OutsideRunUnchanged(mp, i, k - 1);
    }
  }

  lemma RightOfQuietRow(mp: seq<Cell>, i: nat, k: nat)
    requires 1 <= i < |mp| && 1 <= k < |mp| - 1 && IsAbsence(mp[k])
    requires !InCurrentRun(mp, i, k) && LabelBefore(mp, i, k) == LoadManagement
    ensures BeforeAbsorb(mp, i, k + 1) != InjuredIllness
  {
    if IsAbsence(mp[k + 1]) {
      NextInRun(mp, k);
      assert !InCurrentRun(mp, i, k + 1);
      OutsideRunUnchanged(mp, i, k + 1);
    } else {
      PlayedRow(mp, i, k + 1);
    }
  }

  lemma AbsorbStepOutsideRun(mp: seq<Cell>, i: nat, k: nat)
    requires 1 <= i < |mp| && 1 <= k < |mp| && IsAbsence(mp[k])
    requires !InCurrentRun(mp, i, k)
    ensures AbsorbStepHolds(mp, i, k)
  {
    OutsideRunUnchanged(mp, i, k);
    if k < |mp| - 1 && LabelBefore(mp, i, k) == LoadManagement {
      LeftOfQuietRow(mp, i, k);
      RightOfQuietRow(mp, i, k);
    }
  }

  /** In a run of at most three rows no neighbour is injured. */
  lemma LeftInShortRun(mp: seq<Cell>, i: nat, k: nat)
    requires 1 <= i < |mp| && 1 <= k < |mp| && InCurrentRun(mp, i, k)
    requires RunEnd(mp, i) - RunStart(mp, i) <= 3
    ensures LabelBefore(mp, i + 1, k - 1) != InjuredIllness
  {
    if k - 1 >= RunStart(mp, i) {
      SameRun(mp, i, k - 1);
    }
  }

  lemma RightInShortRun(mp: seq<Cell>, i: nat, k: nat)
    requires 1 <= i < |mp| && 1 <= k < |mp| - 1 && InCurrentRun(mp, i, k)
    requires RunEnd(mp, i) - RunStart(mp, i) <= 3
    ensures BeforeAbsorb(mp, i, k + 1) != InjuredIllness
  {
    if k + 1 < RunEnd(mp, i) {
      assert InCurrentRun(mp, i, k + 1);
    } else {
      PlayedRow(mp, i, k + 1);
    }
  }

  lemma AbsorbStepShortRun(mp: seq<Cell>, i: nat, k: nat)
    requires 1 <= i < |mp| && 1 <= k < |mp| && InCurrentRun(mp, i, k)
    requires RunEnd(mp, i) - RunStart(mp, i) <= 3
    ensures AbsorbStepHolds(mp, i, k)
  {
    SameRun(mp, i, k);
    assert BeforeAbsorb(mp, i, k) == LoadManagement == LabelBefore(mp, i + 1, k);
    if k < |mp| - 1 {
      LeftInShortRun(mp, i, k);
      RightInShortRun(mp, i, k);
    }
  }

  lemma AbsorbStepLongRun(mp: seq<Cell>, i: nat, k: nat)
    requires 1 <= i < |mp| && 1 <= k < |mp| && InCurrentRun(mp, i, k)
    requires RunEnd(mp, i) - RunStart(mp, i) > 3
    ensures AbsorbStepHolds(mp, i, k)
  {
    var n := |mp|;
    var s, e := RunStart(mp, i), RunEnd(mp, i);
    SameRun(mp, i, k);
    if k < n - 1 && BeforeAbsorb(mp, i, k) == LoadManagement {
      // A softened row, or the reset row i: its left neighbour is injured.
      assert s <= k - 1;
      SameRun(mp, i, k - 1);
    }
  }

  lemma AbsorbStep(mp: seq<Cell>, i: nat, k: nat)
    requires 1 <= i < |mp| && k < |mp|
    ensures AbsorbStepHolds(mp, i, k)
  {
    if !IsAbsence(mp[k]) {
      PlayedRow(mp, i, k);
    } else if k == 0 {
    } else if !InCurrentRun(mp, i, k) {
      AbsorbStepOutsideRun(mp, i, k);
    } else if RunEnd(mp, i) - RunStart(mp, i) <= 3 {
      AbsorbStepShortRun(mp, i, k);
    } else {
      AbsorbStepLongRun(mp, i, k);
    }
  }

  /** The adjacency pass of iteration i turns `BeforeAbsorb` into the labels
      of iteration i + 1, proved from the left, row by row. */
  lemma {:induction false} AbsorbGivesNextLabels(mp: seq<Cell>, i: nat, mid: seq<RestType>, out: seq<RestType>, k: nat)
    requires 1 <= i < |mp| && |mid| == |mp| == |out| && k < |mp|
    requires forall j :: 0 <= j < |mp| ==> mid[j] == BeforeAbsorb(mp, i, j)
    requires forall j :: 0 <= j < |mp| && !(1 <= j < |mp| - 1) ==> out[j] == mid[j]
    requires forall j :: 1 <= j < |mp| - 1 ==> AbsorbedAt(mid, out, j)
    ensures forall j :: 0 <= j <= k ==> out[j] == LabelBefore(mp, i + 1, j)
    decreases k
  {
    if k > 0 {
      AbsorbGivesNextLabels(mp, i, mid, out, k - 1);
    }
    AbsorbStep(mp, i, k);
    if 1 <= k < |mp| - 1 {
      assert AbsorbedAt(mid, out, k);
      assert out[k - 1] == LabelBefore(mp, i + 1, k - 1);
      assert mid[k] == BeforeAbsorb(mp, i, k) && mid[k + 1] == BeforeAbsorb(mp, i, k + 1);
    } else {
      assert out[k] == mid[k] == BeforeAbsorb(mp, i, k);
    }
  }

  /* ---------------------------------------------------------------------
     The whole loop.
     --------------------------------------------------------------------- */

  /** Lines 54-107: the preset and the outer loop over rows 1..n-1, with the
      adjacency pass nested in every iteration. */
  method Classify(mp: seq<Cell>) returns (rest: seq<RestType>)
    ensures |rest| == |mp|
    ensures forall k :: 0 <= k < |mp| ==> rest[k] == FinalRest(mp, k)
    ensures forall k :: 0 <= k < |mp| ==> (rest[k] == Normal <==> !IsAbsence(mp[k]))
    ensures |mp| > 0 && IsAbsence(mp[0]) ==> rest[0] == LoadManagement
    ensures |mp| > 0 && IsAbsence(mp[|mp| - 1]) ==> rest[|mp| - 1] == LoadManagement
    ensures forall k :: 1 <= k < |mp| - 1 && IsAbsence(mp[k]) ==>
      (rest[k] == InjuredIllness <==> RunLength(mp, k) > 3)
  {
    rest := Preset(mp);
    var i := 1;
    while i < |mp|
      invariant 1 <= i && (i <= |mp| || |mp| == 0) && |rest| == |mp|
      invariant forall k :: 0 <= k < |mp| ==> rest[k] == LabelBefore(mp, i, k)
    {
      var mid := EscalateRun(mp, rest, i);
      forall k | 0 <= k < |mp|
        ensures mid[k] == BeforeAbsorb(mp, i, k)
      {
        EscalatedIsBeforeAbsorb(mp, i, rest, k);
      }
      rest := AbsorbAdjacent(mid);
      AbsorbGivesNextLabels(mp, i, mid, rest, |mp| - 1);
      i := i + 1;
    }
    forall k | 0 <= k < |mp|
      ensures rest[k] == FinalRest(mp, k)
    {
      if IsAbsence(mp[k]) && 1 <= k < |mp| - 1 {
        assert RunStart(mp, k) < i;
      }
    }
  }

  /* ---------------------------------------------------------------------
     Two consequences of the loop bounds.
     --------------------------------------------------------------------- */

  const DidNotPlay := Text("Did Not Play")

  /** Four absences from the first row, then a played game: the loop never
      revisits row 0, so the run it sees is rows 1..3, of length three, and
      every absence stays `Load Management`. */
  lemma AbsencesFromFirstRowExample()
    ensures var mp := [DidNotPlay, DidNotPlay, DidNotPlay, DidNotPlay, Text("30:00")];
      FinalRest(mp, 0) == LoadManagement && FinalRest(mp, 1) == LoadManagement
      && FinalRest(mp, 2) == LoadManagement && FinalRest(mp, 3) == LoadManagement
      && FinalRest(mp, 4) == Normal
  {
    var mp := [DidNotPlay, DidNotPlay, DidNotPlay, DidNotPlay, Text("30:00")];
    assert IsAbsence(DidNotPlay);
    assert !IsAbsence(Text("30:00"));
    assert RunEnd(mp, 3) == 4 && RunEnd(mp, 2) == 4;
    assert RunStart(mp, 3) == 1 && RunEnd(mp, 1) == 4;
    SameRun(mp, 1, 2);
    SameRun(mp, 1, 3);
  }

  /** A played game, then four absences to the end of the log: the run is
      injured except its last row, which the final iteration resets to
      `Load Management` and the adjacency pass never reaches. */
  lemma AbsencesToLastRowExample()
    ensures var mp := [Text("30:00"), DidNotPlay, DidNotPlay, DidNotPlay, DidNotPlay];
      FinalRest(mp, 0) == Normal && FinalRest(mp, 1) == InjuredIllness
      && FinalRest(mp, 2) == InjuredIllness && FinalRest(mp, 3) == InjuredIllness
      && FinalRest(mp, 4) == LoadManagement
  {
    var mp := [Text("30:00"), DidNotPlay, DidNotPlay, DidNotPlay, DidNotPlay];
    assert IsAbsence(DidNotPlay);
    assert !IsAbsence(Text("30:00"));
    assert RunStart(mp, 1) == 1 && RunEnd(mp, 1) == 5;
    SameRun(mp, 1, 2);
    SameRun(mp, 1, 3);
  }
}
