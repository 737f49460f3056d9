/** The note-level stage, utils/runNoteLevel_helper.py: the baseline's
    positive notes are re-scored by a second classifier at threshold 0.5,
    the negatives keep the baseline's probability, and the notes are put back
    together sorted by patient and date. The classifier is a parameter. */
module NoteLevel {

  import opened Wrappers
  import opened Dates
  import opened Frames
  import opened Sorting

  /** One output row: `PatientID`, `Date`, `baseline_answer` and
      `baseline_probability` (the baseline's `model_answer` and `prob_YES`,
      renamed), `adjusted_answer` and `adjusted_probability`. */
  datatype NoteScore = NoteScore(id: Value, date: Value, baselineAnswer: Value, baselineProbability: Value,
                                 adjustedAnswer: int, adjustedProbability: Value)

  datatype NoteError =
    | Missing(error: SchemaError)   // a column the stage reads is absent
    | NoPositives                   // the classifier is given no rows

  /** The corrector's decision threshold. */
  const Threshold: real := 0.5

  /** The number of trailing columns (the baseline's two last feature columns
      and its three score columns) left out of the corrector's input. */
  const Trailing: nat := 5

  // -----------------------------------------------------------------------
  // Which rows are positive

  /** `scores.model_answer == 1` for row k. */
  predicate IsPositive(t: Table, k: nat)
    requires WellFormed(t) && k < |t.rows| && "model_answer" in t.columns
  {
    Cell(t, k, "model_answer") == Num(1.0)
  }

  /** The positions below n of the positive rows (positive) or of the others. */
  function Where(t: Table, n: nat, positive: bool): (r: seq<nat>)
    requires WellFormed(t) && n <= |t.rows| && "model_answer" in t.columns
    ensures forall i :: 0 <= i < |r| ==> r[i] < n && IsPositive(t, r[i]) == positive
    ensures forall i, j :: 0 <= i < j < |r| ==> r[i] < r[j]
    ensures forall k :: 0 <= k < n && IsPositive(t, k) == positive ==> k in r
  {
    if n == 0 then [] else Where(t, n - 1, positive) + (if IsPositive(t, n - 1) == positive then [n - 1] else [])
  }

  /** `scores[mask]`: the rows at the given positions, in that order. */
  function RowsAt(t: Table, ps: seq<nat>): (r: Table)
    requires WellFormed(t) && forall i :: 0 <= i < |ps| ==> ps[i] < |t.rows|
    ensures WellFormed(r) && r.columns == t.columns && |r.rows| == |ps|
    ensures forall i :: 0 <= i < |ps| ==> r.rows[i] == t.rows[ps[i]]
  {
    Table(t.columns, seq(|ps|, i requires 0 <= i < |ps| => t.rows[ps[i]]))
  }

  /** The number of leading columns the corrector reads: all but the last
      five, or none when there are at most five. */
  function Width(n: nat): (w: nat)
    ensures w <= n
    ensures n >= Trailing ==> w + Trailing == n
    ensures n < Trailing ==> w == 0
  {
    if n >= Trailing then n - Trailing else 0
  }

  /** `t[list(t)[:w]]`: the first w columns. */
  function Leading(t: Table, w: nat): (r: Table)
    requires WellFormed(t) && w <= |t.columns|
    ensures WellFormed(r) && r.columns == t.columns[..w] && |r.rows| == |t.rows|
    ensures forall k :: 0 <= k < |t.rows| ==> r.rows[k] == t.rows[k][..w]
  {
    Table(t.columns[..w], seq(|t.rows|, k requires 0 <= k < |t.rows| => t.rows[k][..w]))
  }

  // -----------------------------------------------------------------------
  // The reference: what each note's output row is

  /** The corrector's input for row k: one value per feature name, in that
      order; a feature among the leading columns carries that column's value
      (its first column, for a repeated name), any other feature is 0. */
  function FeatureRow(t: Table, featureNames: seq<string>, k: nat): (x: seq<Value>)
    requires WellFormed(t) && k < |t.rows|
    ensures |x| == |featureNames|
  {
    var lead := t.columns[..Width(|t.columns|)];
    seq(|featureNames|, j requires 0 <= j < |featureNames| =>
      if featureNames[j] in lead then t.rows[k][IndexOf(lead, featureNames[j])] else Zero)
  }

  predicate Readable(t: Table) {
    WellFormed(t) && "model_answer" in t.columns && "prob_YES" in t.columns
    && "PatientID" in t.columns && "Date" in t.columns
  }

  /** A positive note, re-scored: the corrector's probability, and answer 1
      iff it reaches 0.5. */
  function Rescored(t: Table, featureNames: seq<string>, clf: seq<Value> -> real, k: nat): NoteScore
    requires Readable(t) && k < |t.rows|
  {
    var p := clf(FeatureRow(t, featureNames, k));
    NoteScore(Cell(t, k, "PatientID"), Cell(t, k, "Date"), Cell(t, k, "model_answer"), Cell(t, k, "prob_YES"),
      if p >= Threshold then 1 else 0, Num(p))
  }

  /** Any other note: answer 0 and the baseline's probability. */
  function Carried(t: Table, k: nat): NoteScore
    requires Readable(t) && k < |t.rows|
  {
    NoteScore(Cell(t, k, "PatientID"), Cell(t, k, "Date"), Cell(t, k, "model_answer"), Cell(t, k, "prob_YES"),
      0, Cell(t, k, "prob_YES"))
  }

  /** The output row of note k. */
  function Adjusted(t: Table, featureNames: seq<string>, clf: seq<Value> -> real, k: nat): NoteScore
    requires Readable(t) && k < |t.rows|
  {
    if IsPositive(t, k) then Rescored(t, featureNames, clf, k) else Carried(t, k)
  }

  /** Every note keeps its id, date, baseline answer and baseline
      probability; a positive note gets the corrector's probability and
      answer 1 iff it reaches 0.5; any other note gets answer 0 and keeps the
      baseline's probability. */
  lemma AdjustedMeaning(t: Table, featureNames: seq<string>, clf: seq<Value> -> real, k: nat)
    requires Readable(t) && k < |t.rows|
    ensures var s := Adjusted(t, featureNames, clf, k);
      && s.id == Cell(t, k, "PatientID") && s.date == Cell(t, k, "Date")
      && s.baselineAnswer == Cell(t, k, "model_answer") && s.baselineProbability == Cell(t, k, "prob_YES")
      && (IsPositive(t, k) ==> s.adjustedProbability == Num(clf(FeatureRow(t, featureNames, k))))
      && (IsPositive(t, k) ==> (s.adjustedAnswer == 1 <==> clf(FeatureRow(t, featureNames, k)) >= 0.5))
      && (IsPositive(t, k) ==> (s.adjustedAnswer == 0 <==> clf(FeatureRow(t, featureNames, k)) < 0.5))
      && (!IsPositive(t, k) ==> s.adjustedAnswer == 0 && s.adjustedProbability == Cell(t, k, "prob_YES"))
  {
  }

  function MapRows(t: Table, featureNames: seq<string>, clf: seq<Value> -> real, ps: seq<nat>): (r: seq<NoteScore>)
    requires Readable(t) && forall i :: 0 <= i < |ps| ==> ps[i] < |t.rows|
    ensures |r| == |ps|
  {
    seq(|ps|, i requires 0 <= i < |ps| => Adjusted(t, featureNames, clf, ps[i]))
  }

  lemma MapRowsAppend(t: Table, featureNames: seq<string>, clf: seq<Value> -> real, ps: seq<nat>, k: nat)
    requires Readable(t) && k < |t.rows| && forall i :: 0 <= i < |ps| ==> ps[i] < |t.rows|
    ensures MapRows(t, featureNames, clf, ps + [k]) == MapRows(t, featureNames, clf, ps) + [Adjusted(t, featureNames, clf, k)]
  {
    assert forall i :: 0 <= i < |ps| ==> (ps + [k])[i] == ps[i];
  }

  /** The output rows of the first n notes, in note order. */
  function AllRows(t: Table, featureNames: seq<string>, clf: seq<Value> -> real, n: nat): (r: seq<NoteScore>)
    requires Readable(t) && n <= |t.rows|
    ensures |r| == n
  {
    if n == 0 then [] else AllRows(t, featureNames, clf, n - 1) + [Adjusted(t, featureNames, clf, n - 1)]
  }

  lemma {:induction false} AllRowsAt(t: Table, featureNames: seq<string>, clf: seq<Value> -> real, n: nat, k: nat)
    requires Readable(t) && k < n <= |t.rows|
    ensures AllRows(t, featureNames, clf, n)[k] == Adjusted(t, featureNames, clf, k)
  {
    if k < n - 1 {
      AllRowsAt(t, featureNames, clf, n - 1, k);
    }
  }

  /** `sort_values(by=['PatientID','Date'])`: by id, then by date. */
  function ScoreKey(s: NoteScore): Key {
    var id := if s.id.Num? then s.id.x.Floor else 0;
    if s.date.Day? then Key(id, s.date.d.year, s.date.d.month, s.date.d.day) else Key(id, 0, 0, 0)
  }

  /** What `score` returns for the baseline's scored notes, the corrector's
      feature names and the corrector. */
  function NoteScores(t: Table, featureNames: seq<string>, clf: seq<Value> -> real): Result<seq<NoteScore>, NoteError>
    requires WellFormed(t)
  {
    if "model_answer" !in t.columns then Failure(Missing(MissingColumn("model_answer")))
    else if Where(t, |t.rows|, true) == [] then Failure(NoPositives)
    else if "prob_YES" !in t.columns then Failure(Missing(MissingColumn("prob_YES")))
    else match FirstMissing(["PatientID", "Date"], t.columns)
      case Some(c) => Failure(Missing(MissingColumn(c)))
      case None =>
        Success(SortBy(MapRows(t, featureNames, clf, Where(t, |t.rows|, true))
                       + MapRows(t, featureNames, clf, Where(t, |t.rows|, false)), ScoreKey))
  }

  // -----------------------------------------------------------------------
  // The stage as written

  /** `score`: the positive notes, their leading columns, the loop adding
      missing features as zeros and the reordering to the feature names; the
      corrector's probabilities on them; answer 0 and the carried
      probability for the rest; the concatenation, sorted. */
  method Score(t: Table, featureNames: seq<string>, clf: seq<Value> -> real)
    returns (r: Result<seq<NoteScore>, NoteError>)
    requires WellFormed(t)
    ensures r == NoteScores(t, featureNames, clf)
  {
    if "model_answer" !in t.columns {
      return Failure(Missing(MissingColumn("model_answer")));
    }
    var pos := Where(t, |t.rows|, true);
    var positives := RowsAt(t, pos);
    var testDf := Leading(positives, Width(|t.columns|));
    var x := AlignToSchema(testDf, featureNames);
    if |x.rows| == 0 {
      return Failure(NoPositives);
    }
    if "prob_YES" !in t.columns {
      return Failure(Missing(MissingColumn("prob_YES")));
    }
    var missing := FirstMissing(["PatientID", "Date"], t.columns);
    if missing.Some? {
      return Failure(Missing(MissingColumn(missing.value)));
    }
    var adjusted := RescorePositives(t, featureNames, clf, pos, x);
    var carried := CarryNegatives(t, featureNames, clf, Where(t, |t.rows|, false));
    r := Success(SortBy(adjusted + carried, ScoreKey));
  }

  /** The corrector's answers and probabilities on the positive notes. */
  method RescorePositives(t: Table, featureNames: seq<string>, clf: seq<Value> -> real, pos: seq<nat>, x: Table)
    returns (adjusted: seq<NoteScore>)
    requires Readable(t) && forall q :: 0 <= q < |pos| ==> pos[q] < |t.rows| && IsPositive(t, pos[q])
    requires x == Aligned(Leading(RowsAt(t, pos), Width(|t.columns|)), featureNames)
    ensures adjusted == MapRows(t, featureNames, clf, pos)
  {
    adjusted := [];
    for i := 0 to |pos|
      invariant adjusted == MapRows(t, featureNames, clf, pos[..i])
    {
      AlignedFeatures(t, featureNames, pos, i);
      var p := clf(x.rows[i]);
      var k := pos[i];
      MapRowsAppend(t, featureNames, clf, pos[..i], k);
      adjusted := adjusted + [NoteScore(Cell(t, k, "PatientID"), Cell(t, k, "Date"), Cell(t, k, "model_answer"),
        Cell(t, k, "prob_YES"), if p >= Threshold then 1 else 0, Num(p))];
      assert pos[..i + 1] == pos[..i] + [k];
    }
    assert pos[..|pos|] == pos;
  }

  /** `adjusted_answer = 0` and the baseline's `prob_YES` on the other notes. */
  method CarryNegatives(t: Table, featureNames: seq<string>, clf: seq<Value> -> real, neg: seq<nat>)
    returns (carried: seq<NoteScore>)
    requires Readable(t) && forall q :: 0 <= q < |neg| ==> neg[q] < |t.rows| && !IsPositive(t, neg[q])
    ensures carried == MapRows(t, featureNames, clf, neg)
  {
    carried := [];
    for i := 0 to |neg|
      invariant carried == MapRows(t, featureNames, clf, neg[..i])
    {
      var k := neg[i];
      MapRowsAppend(t, featureNames, clf, neg[..i], k);
      carried := carried + [NoteScore(Cell(t, k, "PatientID"), Cell(t, k, "Date"), Cell(t, k, "model_answer"),
        Cell(t, k, "prob_YES"), 0, Cell(t, k, "prob_YES"))];
      assert neg[..i + 1] == neg[..i] + [k];
    }
    assert neg[..|neg|] == neg;
  }

  /** Row i of the aligned corrector input is the feature row of the i-th
      positive note. */
  lemma AlignedFeatures(t: Table, featureNames: seq<string>, pos: seq<nat>, i: nat)
    requires WellFormed(t) && forall q :: 0 <= q < |pos| ==> pos[q] < |t.rows|
    requires i < |pos|
    ensures var x := Aligned(Leading(RowsAt(t, pos), Width(|t.columns|)), featureNames);
      i < |x.rows| && x.rows[i] == FeatureRow(t, featureNames, pos[i])
  {
    var testDf := Leading(RowsAt(t, pos), Width(|t.columns|));
    var x := Aligned(testDf, featureNames);
    forall j | 0 <= j < |featureNames|
      ensures x.rows[i][j] == FeatureRow(t, featureNames, pos[i])[j]
    {
      if featureNames[j] in testDf.columns {
        assert Cell(testDf, i, featureNames[j]) == testDf.rows[i][IndexOf(testDf.columns, featureNames[j])];
      }
    }
  }

  // -----------------------------------------------------------------------
  // What the output says

  /** The stage fails exactly when `model_answer` is missing, when no note
      is positive, or when `prob_YES`, `PatientID` or `Date` is missing. */
  lemma NoteScoresFailure(t: Table, featureNames: seq<string>, clf: seq<Value> -> real)
    requires WellFormed(t)
    ensures NoteScores(t, featureNames, clf).Success? <==>
      Readable(t) && exists k :: 0 <= k < |t.rows| && IsPositive(t, k)
    ensures NoteScores(t, featureNames, clf) == Failure(NoPositives) <==>
      "model_answer" in t.columns && forall k :: 0 <= k < |t.rows| ==> !IsPositive(t, k)
  {
    if "model_answer" in t.columns {
      var pos := Where(t, |t.rows|, true);
      if pos != [] {
        assert IsPositive(t, pos[0]);
      }
    }
  }

  lemma WhereStep(t: Table, n: nat, b: bool)
    requires WellFormed(t) && 0 < n <= |t.rows| && "model_answer" in t.columns
    ensures IsPositive(t, n - 1) == b ==> Where(t, n, b) == Where(t, n - 1, b) + [n - 1]
    ensures IsPositive(t, n - 1) != b ==> Where(t, n, b) == Where(t, n - 1, b)
  {
  }

  lemma MultisetAppend<X>(p: seq<X>, q: seq<X>, all: seq<X>, a: X)
    requires multiset(p) + multiset(q) == multiset(all)
    ensures multiset(p + [a]) + multiset(q) == multiset(all + [a])
    ensures multiset(p) + multiset(q + [a]) == multiset(all + [a])
  {
  }

  /** Row n-1 joins the positives or the others, whichever it belongs to. */
  lemma MapWhereStep(t: Table, featureNames: seq<string>, clf: seq<Value> -> real, n: nat, b: bool)
    requires Readable(t) && 0 < n <= |t.rows|
    ensures IsPositive(t, n - 1) == b ==>
      MapRows(t, featureNames, clf, Where(t, n, b)) == MapRows(t, featureNames, clf, Where(t, n - 1, b)) + [Adjusted(t, featureNames, clf, n - 1)]
    ensures IsPositive(t, n - 1) != b ==>
      MapRows(t, featureNames, clf, Where(t, n, b)) == MapRows(t, featureNames, clf, Where(t, n - 1, b))
  {
    WhereStep(t, n, b);
    if IsPositive(t, n - 1) == b {
      MapRowsAppend(t, featureNames, clf, Where(t, n - 1, b), n - 1);
    }
  }

  lemma {:induction false} WhereSplit(t: Table, featureNames: seq<string>, clf: seq<Value> -> real, n: nat)
    requires Readable(t) && n <= |t.rows|
    ensures multiset(MapRows(t, featureNames, clf, Where(t, n, true))) + multiset(MapRows(t, featureNames, clf, Where(t, n, false)))
      == multiset(AllRows(t, featureNames, clf, n))
  {
    if n > 0 {
      WhereSplit(t, featureNames, clf, n - 1);
      var a := Adjusted(t, featureNames, clf, n - 1);
      var p := MapRows(t, featureNames, clf, Where(t, n - 1, true));
      var q := MapRows(t, featureNames, clf, Where(t, n - 1, false));
      var all := AllRows(t, featureNames, clf, n - 1);
      assert AllRows(t, featureNames, clf, n) == all + [a];
      MultisetAppend(p, q, all, a);
      MapWhereStep(t, featureNames, clf, n, true);
      MapWhereStep(t, featureNames, clf, n, false);
    }
  }

  /** The output rows are the notes' output rows, each exactly once: the
      positives and the rest together, so the note count is kept. */
  lemma NoteScoresPermutation(t: Table, featureNames: seq<string>, clf: seq<Value> -> real)
    requires WellFormed(t) && NoteScores(t, featureNames, clf).Success?
    ensures Readable(t)
    ensures multiset(NoteScores(t, featureNames, clf).value) == multiset(AllRows(t, featureNames, clf, |t.rows|))
    ensures |NoteScores(t, featureNames, clf).value| == |t.rows|
  {
    NoteScoresFailure(t, featureNames, clf);
    WhereSplit(t, featureNames, clf, |t.rows|);
    var pos := MapRows(t, featureNames, clf, Where(t, |t.rows|, true));
    var neg := MapRows(t, featureNames, clf, Where(t, |t.rows|, false));
    assert multiset(pos + neg) == multiset(AllRows(t, featureNames, clf, |t.rows|));
    assert |multiset(pos + neg)| == |pos + neg|;
  }

  /** The output is in ascending (PatientID, Date) order. */
  lemma NoteScoresSorted(t: Table, featureNames: seq<string>, clf: seq<Value> -> real)
    requires WellFormed(t) && NoteScores(t, featureNames, clf).Success?
    ensures SortedBy(NoteScores(t, featureNames, clf).value, ScoreKey)
  {
    var pos := Where(t, |t.rows|, true);
    var neg := Where(t, |t.rows|, false);
    SortBySorted(MapRows(t, featureNames, clf, pos) + MapRows(t, featureNames, clf, neg), ScoreKey);
  }

  /** The sort key is numeric order of the ids, then calendar order of the
      dates, for integral ids and parsed dates. */
  lemma ScoreKeyOrder(a: NoteScore, b: NoteScore, i: int, j: int, d: Date, e: Date)
    requires a.id == Num(i as real) && b.id == Num(j as real) && a.date == Day(d) && b.date == Day(e)
    ensures KeyLe(ScoreKey(a), ScoreKey(b)) <==> i < j || (i == j && Le(d, e))
  {
  }

  /** The corrector reads exactly the feature names, in order: a feature
      present in the leading columns (all but the last five) carries the
      leading column's value, any other is 0; the trailing five columns are
      never read. */
  lemma FeatureRowCells(t: Table, featureNames: seq<string>, k: nat, j: nat)
    requires WellFormed(t) && k < |t.rows| && j < |featureNames|
    ensures var n := |t.columns|;
      var x := FeatureRow(t, featureNames, k);
      && (featureNames[j] !in t.columns[..Width(n)] ==> x[j] == Zero)
      && (featureNames[j] in t.columns[..Width(n)] ==>
           exists c :: 0 <= c < Width(n) && t.columns[c] == featureNames[j] && x[j] == t.rows[k][c])
  {
    var lead := t.columns[..Width(|t.columns|)];
    if featureNames[j] in lead {
      var c := IndexOf(lead, featureNames[j]);
      assert t.columns[c] == featureNames[j];
    }
  }

  /** Changing a trailing column (a `prob_NO`, `prob_YES` or `model_answer`
      cell, say) changes no feature row. */
  lemma FeatureRowIgnoresTrailing(t: Table, u: Table, featureNames: seq<string>, k: nat)
    requires WellFormed(t) && WellFormed(u) && k < |t.rows| && k < |u.rows|
    requires t.columns == u.columns
    requires t.rows[k][..Width(|t.columns|)] == u.rows[k][..Width(|u.columns|)]
    ensures FeatureRow(t, featureNames, k) == FeatureRow(u, featureNames, k)
  {
    var lead := t.columns[..Width(|t.columns|)];
    forall j | 0 <= j < |featureNames|
      ensures FeatureRow(t, featureNames, k)[j] == FeatureRow(u, featureNames, k)[j]
    {
      if featureNames[j] in lead {
        var c := IndexOf(lead, featureNames[j]);
        assert t.rows[k][c] == t.rows[k][..Width(|t.columns|)][c];
        assert u.rows[k][c] == u.rows[k][..Width(|u.columns|)][c];
      }
    }
  }
}
