/** The bin builder, `makeBins` in utils/trend_helper.py: the start offsets,
    end offsets and labels of fixed-width time bins from an anchor date up to
    a horizon of whole years. */
module Bins {

  import opened Wrappers
  import opened Text

  datatype Bins = Bins(starts: seq<int>, ends: seq<int>, labels: seq<string>)

  datatype BinError = UnknownWindow(window: string)

  /** What a window keyword fixes: offsets per year, the step and the unit
      written into the labels. Any other keyword leaves `endTime` and `step`
      unbound in the source, so the call fails. */
  datatype WindowSpec = WindowSpec(perYear: nat, step: nat, unit: string)

  function WindowOf(window: string): (r: Option<WindowSpec>)
    ensures r.Some? ==> r.value.step > 0
  {
    if window == "week" then Some(WindowSpec(52, 1, "week"))
    else if window == "month" then Some(WindowSpec(12, 1, "month"))
    else if window == "3month" then Some(WindowSpec(12, 3, "month"))
    else if window == "6month" then Some(WindowSpec(12, 6, "month"))
    else None
  }

  /** `np.arange(a, b, s)` for a positive step: a, a + s, a + 2s, ... below b. */
  function Arange(a: int, b: int, s: int): seq<int>
    requires s > 0
    decreases b - a
  {
    if a >= b then [] else [a] + Arange(a + s, b, s)
  }

  lemma {:induction false} ArangeAt(a: int, b: int, s: int, i: nat)
    requires s > 0 && i < |Arange(a, b, s)|
    ensures Arange(a, b, s)[i] == a + i * s
    decreases i
  {
    if i > 0 {
      ArangeAt(a + s, b, s, i - 1);
      assert (a + s) + (i - 1) * s == a + i * s;
    }
  }

  /** `np.arange(a, b, s)` has exactly k elements when a + (k-1)s < b <= a + ks. */
  lemma {:induction false} ArangeLength(a: int, b: int, s: int, k: nat)
    requires s > 0
    requires (k == 0 && a >= b) || (k > 0 && a + (k - 1) * s < b <= a + k * s)
    ensures |Arange(a, b, s)| == k
    decreases k
  {
    if k > 0 {
      assert (k - 1) * s >= 0;
      assert a + k * s == (a + s) + (k - 1) * s;
      if k > 1 {
        assert a + (k - 1) * s == (a + s) + (k - 2) * s;
      }
      ArangeLength(a + s, b, s, k - 1);
    }
  }

  /** Shifting both bounds by one step shifts every element by one step. */
  lemma {:induction false} ArangeShift(a: int, b: int, s: int)
    requires s > 0
    ensures |Arange(a + s, b + s, s)| == |Arange(a, b, s)|
    ensures forall i :: 0 <= i < |Arange(a, b, s)| ==> Arange(a + s, b + s, s)[i] == Arange(a, b, s)[i] + s
    decreases b - a
  {
    if a < b {
      ArangeShift(a + s, b, s);
    }
  }

  /** The label of one bin: `str(start) + 'to' + str(end) + unit`. */
  function Label(start: int, end: int, unit: string): string {
    IntToString(start) + "to" + IntToString(end) + unit
  }

  /** The labels of the bins whose starts and ends are given, in bin order. */
  function LabelsOf(starts: seq<int>, ends: seq<int>, unit: string): (r: seq<string>)
    requires |starts| <= |ends|
    ensures |r| == |starts|
  {
    seq(|starts|, i requires 0 <= i < |starts| => Label(starts[i], ends[i], unit))
  }

  /** The bins `makeBins(window=window, nYears=nYears)` returns, written as
      whole sequences (the reference for the method below). */
  function BinsOf(window: string, nYears: int): Result<Bins, BinError> {
    match WindowOf(window)
    case None => Failure(UnknownWindow(window))
    case Some(w) =>
      var endTime := nYears * w.perYear + 1;
      var starts := Arange(0, endTime - w.step, w.step);
      var ends := Arange(w.step, endTime, w.step);
      ArangeShift(0, endTime - w.step, w.step);
      Success(Bins(starts, ends, LabelsOf(starts, ends, w.unit)))
  }

  /** `makeBins`: the two ranges, then the labels built one by one. */
  method MakeBins(window: string, nYears: int) returns (r: Result<Bins, BinError>)
    ensures r == BinsOf(window, nYears)
  {
    var w := WindowOf(window);
    if w.None? {
      return Failure(UnknownWindow(window));
    }
    var step, l := w.value.step, w.value.unit;
    var endTime := nYears * w.value.perYear + 1;
    var blockStarts := Arange(0, endTime - step, step);
    var blockEnds := Arange(step, endTime, step);
    ArangeShift(0, endTime - step, step);
    var blockLabels := BuildLabels(blockStarts, blockEnds, l);
    r := Success(Bins(blockStarts, blockEnds, blockLabels));
  }

  /** The label loop of `makeBins`: one label per start, appended in order. */
  method BuildLabels(starts: seq<int>, ends: seq<int>, unit: string) returns (labels: seq<string>)
    requires |starts| <= |ends|
    ensures labels == LabelsOf(starts, ends, unit)
  {
    ghost var all := LabelsOf(starts, ends, unit);
    labels := [];
    for t := 0 to |starts|
      invariant |labels| == t
      invariant forall i :: 0 <= i < t ==> labels[i] == all[i]
    {
      var l := Label(starts[t], ends[t], unit);
      assert l == all[t];
      labels := labels + [l];
    }
    assert |labels| == |all|;
  }

  /** An unrecognised keyword fails; a recognised one always yields bins. */
  lemma BinsFailIffUnknown(window: string, nYears: int)
    ensures BinsOf(window, nYears).Failure? <==>
      window != "week" && window != "month" && window != "3month" && window != "6month"
  {
  }

  /** The three sequences have one entry per bin: 52 per year for `week`, 12
      for `month`, 4 for `3month`, 2 for `6month` (none for nYears <= 0). */
  lemma BinsLength(window: string, nYears: int)
    requires BinsOf(window, nYears).Success?
    ensures var b := BinsOf(window, nYears).value;
      var n := if nYears <= 0 then 0 else nYears;
      |b.starts| == |b.ends| == |b.labels| ==
        (if window == "week" then 52 * n
         else if window == "month" then 12 * n
         else if window == "3month" then 4 * n
         else 2 * n)
  {
    var w := WindowOf(window).value;
    ArangeShift(0, nYears * w.perYear + 1 - w.step, w.step);
    var n := if nYears <= 0 then 0 else nYears;
    if window == "week" {
      RangeCount(nYears * 52, 1, 52 * n);
    } else if window == "month" {
      RangeCount(nYears * 12, 1, 12 * n);
    } else if window == "3month" {
      RangeCount(nYears * 12, 3, 4 * n);
    } else {
      RangeCount(nYears * 12, 6, 2 * n);
    }
  }

  /** A horizon of k whole steps (none when the horizon is not positive)
      holds exactly k starts. */
  lemma RangeCount(horizon: int, step: nat, k: nat)
    requires step > 0
    requires (k == 0 && horizon <= 0) || (k > 0 && k * step == horizon)
    ensures |Arange(0, horizon + 1 - step, step)| == k
  {
    if k > 0 {
      assert (k - 1) * step == k * step - step;
    }
    ArangeLength(0, horizon + 1 - step, step, k);
  }

  /** The two ranges `makeBins` pairs up, `np.arange(0, e - s, s)` and
      `np.arange(s, e, s)`, pair each start with the end one step later, and
      each start is the previous end. */
  lemma RangesContiguous(e: int, s: int)
    requires s > 0
    ensures var starts, ends := Arange(0, e - s, s), Arange(s, e, s);
      && |starts| == |ends|
      && (forall i :: 0 <= i < |starts| ==> starts[i] == i * s && ends[i] == starts[i] + s)
      && (forall i :: 0 <= i < |starts| - 1 ==> starts[i + 1] == ends[i])
  {
    var starts, ends := Arange(0, e - s, s), Arange(s, e, s);
    ArangeShift(0, e - s, s);
    forall i | 0 <= i < |starts|
      ensures starts[i] == i * s && ends[i] == starts[i] + s
    {
      ArangeAt(0, e - s, s, i);
    }
    forall i | 0 <= i < |starts| - 1
      ensures starts[i + 1] == ends[i]
    {
      assert starts[i + 1] == (i + 1) * s;
      assert (i + 1) * s == i * s + s;
    }
  }

  /** Bins are contiguous and non-overlapping: they start at 0, each is one
      step wide, each starts where the previous one ends, and the last one ends
      at the horizon (52 weeks or 12 months per year). */
  lemma BinsContiguous(window: string, nYears: int)
    requires BinsOf(window, nYears).Success?
    ensures var b := BinsOf(window, nYears).value;
      var w := WindowOf(window).value;
      && |b.starts| == |b.ends| == |b.labels|
      && (|b.starts| > 0 ==> b.starts[0] == 0 && b.ends[|b.ends| - 1] == nYears * w.perYear)
      && (forall i :: 0 <= i < |b.starts| ==> 0 <= b.starts[i] && b.ends[i] == b.starts[i] + w.step)
      && (forall i :: 0 <= i < |b.starts| - 1 ==> b.starts[i + 1] == b.ends[i])
  {
    var w := WindowOf(window).value;
    var b := BinsOf(window, nYears).value;
    RangesContiguous(nYears * w.perYear + 1, w.step);
    BinsLength(window, nYears);
    if |b.starts| > 0 {
      var last := |b.starts| - 1;
      assert b.ends[last] == last * w.step + w.step;
      LastEnd(window, nYears, last);
    }
  }

  lemma LastEnd(window: string, nYears: int, last: int)
    requires WindowOf(window).Some? && nYears > 0
    requires last + 1 == (if window == "week" then 52 * nYears
         else if window == "month" then 12 * nYears
         else if window == "3month" then 4 * nYears
         else 2 * nYears)
    ensures last * WindowOf(window).value.step + WindowOf(window).value.step == nYears * WindowOf(window).value.perYear
  {
  }

  /** Labels of bins with non-negative offsets parse back to their offsets. */
  lemma LabelsParse(starts: seq<int>, ends: seq<int>, unit: string)
    requires |starts| <= |ends|
    requires unit == [] || !IsDigit(unit[0])
    requires forall i :: 0 <= i < |starts| ==> starts[i] >= 0 && ends[i] >= 0
    ensures forall i :: 0 <= i < |starts| ==>
      ParseLabel(LabelsOf(starts, ends, unit)[i]) == Some((starts[i] as nat, ends[i] as nat, unit))
  {
    forall i | 0 <= i < |starts|
      ensures ParseLabel(LabelsOf(starts, ends, unit)[i]) == Some((starts[i] as nat, ends[i] as nat, unit))
    {
      LabelRoundTrip(starts[i], ends[i], unit);
    }
  }

  /** Labels of a contiguous run of positive-width bins are pairwise distinct. */
  lemma LabelsDistinct(starts: seq<int>, ends: seq<int>, step: int, unit: string)
    requires step > 0 && |starts| == |ends|
    requires unit == [] || !IsDigit(unit[0])
    requires forall i :: 0 <= i < |starts| ==> 0 <= starts[i] && ends[i] == starts[i] + step
    requires forall i :: 0 <= i < |starts| - 1 ==> starts[i + 1] == ends[i]
    ensures forall i, j :: 0 <= i < j < |starts| ==> LabelsOf(starts, ends, unit)[i] != LabelsOf(starts, ends, unit)[j]
  {
    LabelsParse(starts, ends, unit);
    forall i, j | 0 <= i < j < |starts|
      ensures LabelsOf(starts, ends, unit)[i] != LabelsOf(starts, ends, unit)[j]
    {
      StartsIncrease(starts, ends, step, i, j);
    }
  }

  /** Every label parses back to its bin's start, end and unit (`week` for
      `week`, `month` for the three month windows), so no two labels coincide. */
  lemma BinLabelsRoundTrip(window: string, nYears: int)
    requires BinsOf(window, nYears).Success?
    ensures var b := BinsOf(window, nYears).value;
      var unit := if window == "week" then "week" else "month";
      && |b.starts| == |b.ends| == |b.labels|
      && (forall i :: 0 <= i < |b.labels| ==>
            b.starts[i] >= 0 && b.ends[i] >= 0 && ParseLabel(b.labels[i]) == Some((b.starts[i] as nat, b.ends[i] as nat, unit)))
      && (forall i, j :: 0 <= i < j < |b.labels| ==> b.labels[i] != b.labels[j])
  {
    var b := BinsOf(window, nYears).value;
    var w := WindowOf(window).value;
    WindowUnit(window);
    assert w.unit[0] == 'w' || w.unit[0] == 'm';
    BinsContiguous(window, nYears);
    assert b.labels == LabelsOf(b.starts, b.ends, w.unit);
    LabelsParse(b.starts, b.ends, w.unit);
    LabelsDistinct(b.starts, b.ends, w.step, w.unit);
  }

  /** `week` writes its labels in weeks, the three month windows in months. */
  lemma WindowUnit(window: string)
    requires WindowOf(window).Some?
    ensures WindowOf(window).value.unit == if window == "week" then "week" else "month"
  {
    if window == "week" {
    } else if window == "month" {
    } else if window == "3month" {
    } else {
      assert window == "6month";
    }
  }

  /** In a contiguous run of positive-width bins, starts strictly increase. */
  lemma {:induction false} StartsIncrease(starts: seq<int>, ends: seq<int>, step: int, i: nat, j: nat)
    requires step > 0 && |starts| == |ends| && i < j < |starts|
    requires forall k :: 0 <= k < |starts| ==> ends[k] == starts[k] + step
    requires forall k :: 0 <= k < |starts| - 1 ==> starts[k + 1] == ends[k]
    ensures starts[i] < starts[j]
    decreases j - i
  {
    if i + 1 < j {
      StartsIncrease(starts, ends, step, i + 1, j);
    }
  }

  /** The patient-level stage's bins, `makeBins(window='3month', nYears=2)`:
      eight quarters from 0 to 24 months. */
  lemma QuarterBinsOfTwoYears()
    ensures var starts, ends := [0, 3, 6, 9, 12, 15, 18, 21], [3, 6, 9, 12, 15, 18, 21, 24];
      BinsOf("3month", 2) == Success(Bins(starts, ends, LabelsOf(starts, ends, "month")))
  {
    QuarterStarts();
    QuarterEnds();
  }

  lemma QuarterStarts()
    ensures Arange(0, 22, 3) == [0, 3, 6, 9, 12, 15, 18, 21]
  {
  }

  lemma QuarterEnds()
    ensures Arange(3, 25, 3) == [3, 6, 9, 12, 15, 18, 21, 24]
  {
  }

  /** Their labels run from `0to3month` to `21to24month`. */
  lemma QuarterLabelsEnds()
    ensures var starts, ends := [0, 3, 6, 9, 12, 15, 18, 21], [3, 6, 9, 12, 15, 18, 21, 24];
      && LabelsOf(starts, ends, "month")[0] == "0to3month"
      && LabelsOf(starts, ends, "month")[7] == "21to24month"
  {
    assert NatToString(21) == "21" && NatToString(24) == "24";
  }
}
