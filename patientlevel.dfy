/** The patient-level stage, utils/runPatientLevel_helper.py: every
    patient's scored notes are aggregated over the eight quarters of the two
    years after admission, pivoted to one feature row per patient, classified
    at threshold 0.3, and joined onto the roster. The classifier is a
    parameter. */
module PatientLevel {

  import opened Wrappers
  import opened Dates
  import opened Frames
  import opened Sorting
  import opened Bins
  import opened Trends
  import opened Pivot
  import B = Baseline

  /** The stage's decision threshold. */
  const Threshold: real := 0.3

  const IdColumn: string := "PatientID"

  /** `makeBins(window='3month', nYears=2)`. */
  const QuarterWindow: string := "3month"
  const Years: int := 2

  /** One output row: `PatientID`, `admit_date`, `prediction`, `probability`. */
  datatype PatientResult = PatientResult(id: int, admit: Date, prediction: int, probability: real)

  /** One row of `regData[['PatientID','prediction','probability']]`. */
  datatype Prediction = Prediction(id: Value, prediction: int, probability: real)

  datatype PatientError =
    | BinsFailed(binError: BinError)
    | TrendsFailed(trendError: TrendError)
    | PivotFailed(pivotError: PivotError)
    | EmptyPivot                  // no scored notes: `gen_regFeats` finds no id column to read

  /** One roster row per patient. */
  predicate UniqueIds(roster: seq<B.Admission>) {
    forall i, j :: 0 <= i < j < |roster| ==> roster[i].id != roster[j].id
  }

  /** `patients[['PatientID','admit_date']]` as the aggregation reads it:
      each roster patient's admission date. */
  function AnchorsOf(roster: seq<B.Admission>): (m: map<int, Date>)
    ensures B.ValidRoster(roster) ==> ValidAnchors(m)
  {
    if roster == [] then map[]
    else
      assert B.ValidRoster(roster) ==> B.ValidRoster(roster[1..]) by {
        assert forall i :: 0 <= i < |roster[1..]| ==> roster[1..][i] == roster[i + 1];
      }
      AnchorsOf(roster[1..])[roster[0].id := roster[0].admit]
  }

  /** With one roster row per patient, the anchors are exactly the roster's
      patients, each with its own admission date. */
  lemma {:induction false} AnchorsOfRoster(roster: seq<B.Admission>)
    requires UniqueIds(roster)
    ensures forall id :: id in AnchorsOf(roster) <==> exists i :: 0 <= i < |roster| && roster[i].id == id
    ensures forall i :: 0 <= i < |roster| ==> roster[i].id in AnchorsOf(roster) && AnchorsOf(roster)[roster[i].id] == roster[i].admit
  {
    if roster != [] {
      var tail := roster[1..];
      assert forall i :: 0 <= i < |tail| ==> tail[i] == roster[i + 1];
      AnchorsOfRoster(tail);
      var m := AnchorsOf(roster);
      forall id | id in m
        ensures exists i :: 0 <= i < |roster| && roster[i].id == id
      {
        if id != roster[0].id {
          var i :| 0 <= i < |tail| && tail[i].id == id;
          assert roster[i + 1].id == id;
        }
      }
      forall i | 0 <= i < |roster|
        ensures roster[i].id in m && m[roster[i].id] == roster[i].admit
      {
        if i > 0 {
          assert roster[i] == tail[i - 1];
        }
      }
    }
  }

  // -----------------------------------------------------------------------
  // The stage as written

  /** `regData[cols[1:]]` classified: every pivot row's probability, and its
      prediction, 1 iff the probability reaches 0.3. */
  function Predictions(reg: Table, clf: seq<Value> -> real): (r: seq<Prediction>)
    requires WellFormed(reg) && IdColumn in reg.columns
    ensures |r| == |reg.rows|
  {
    assert forall n :: n in reg.columns[1..] ==> n in reg.columns;
    var x := Select(reg, reg.columns[1..]);
    seq(|reg.rows|, k requires 0 <= k < |reg.rows| =>
      var p := clf(x.rows[k]);
      Prediction(Cell(reg, k, IdColumn), if p >= Threshold then 1 else 0, p))
  }

  /** The first prediction for the id, if any. */
  function Lookup(preds: seq<Prediction>, id: Value): (r: Option<Prediction>)
    ensures r.None? <==> forall k :: 0 <= k < |preds| ==> preds[k].id != id
  {
    if preds == [] then None
    else if preds[0].id == id then Some(preds[0])
    else
      assert forall k :: 1 <= k < |preds| ==> preds[k] == preds[1..][k - 1];
      Lookup(preds[1..], id)
  }

  lemma {:induction false} LookupAt(preds: seq<Prediction>, id: Value, k: nat)
    requires k < |preds| && preds[k].id == id
    requires forall k' :: 0 <= k' < k ==> preds[k'].id != id
    ensures Lookup(preds, id) == Some(preds[k])
  {
    if k > 0 {
      LookupAt(preds[1..], id, k - 1);
    }
  }

  /** A roster row after the left join and `fillna(0)`: the patient's
      prediction and probability, or 0 and 0 for a patient the pivot lacks. */
  function Joined(a: B.Admission, preds: seq<Prediction>): PatientResult {
    match Lookup(preds, Num(a.id as real))
    case None => PatientResult(a.id, a.admit, 0, 0.0)
    case Some(p) => PatientResult(a.id, a.admit, p.prediction, p.probability)
  }

  function JoinAll(roster: seq<B.Admission>, preds: seq<Prediction>): (r: seq<PatientResult>)
    ensures |r| == |roster|
  {
    seq(|roster|, i requires 0 <= i < |roster| => Joined(roster[i], preds))
  }

  /** `sort_values(by='PatientID')`. */
  function ResultKey(r: PatientResult): Key {
    Key(r.id, 0, 0, 0)
  }

  lemma RegFeatsWellFormed(data: seq<Trend>, idCol: string, labels: seq<string>)
    requires RegFeats(data, idCol, labels).Success?
    ensures WellFormed(RegFeats(data, idCol, labels).value)
  {
    if PivotSubjects(data) != [] {
      RegFeatsShape(data, idCol, labels);
    }
  }

  /** What `score` returns for the roster, the baseline's scored notes and
      the classifier. Without scored notes `parseScores` returns a frame with
      no columns at all, and `gen_regFeats` raises a `KeyError` reading its
      id column; the records here carry no column list, so that case shows
      as a pivot without an id column and fails with `EmptyPivot`. */
  function Outcome(roster: seq<B.Admission>, scores: seq<ScoreRow>, clf: seq<Value> -> real)
    : Result<seq<PatientResult>, PatientError>
    requires B.ValidRoster(roster) && UniqueIds(roster)
  {
    match BinsOf(QuarterWindow, Years)
    case Failure(e) => Failure(BinsFailed(e))
    case Success(bins) =>
      match TimeTrends(scores, AnchorsOf(roster), bins.starts, bins.ends, bins.labels)
      case Failure(e) => Failure(TrendsFailed(e))
      case Success(timeTrends) =>
        match RegFeats(timeTrends, IdColumn, bins.labels)
        case Failure(e) => Failure(PivotFailed(e))
        case Success(regData) =>
          RegFeatsWellFormed(timeTrends, IdColumn, bins.labels);
          if IdColumn !in regData.columns then Failure(EmptyPivot)
          else Success(SortBy(JoinAll(roster, Predictions(regData, clf)), ResultKey))
  }

  /** `score`: the quarterly bins, the aggregation, the pivot, the
      classifier on the pivot without its id column, then the left join onto
      the roster, sorted by id, with 0 for patients without a prediction. */
  method Score(roster: seq<B.Admission>, scores: seq<ScoreRow>, clf: seq<Value> -> real)
    returns (r: Result<seq<PatientResult>, PatientError>)
    requires B.ValidRoster(roster) && UniqueIds(roster)
    ensures r == Outcome(roster, scores, clf)
  {
    var bins := MakeBins(QuarterWindow, Years);
    if bins.Failure? {
      return Failure(BinsFailed(bins.error));
    }
    var admitDates := AnchorsOf(roster);
    var timeTrends := ParseScores(scores, admitDates, bins.value.starts, bins.value.ends, bins.value.labels);
    if timeTrends.Failure? {
      return Failure(TrendsFailed(timeTrends.error));
    }
    var regData := GenRegFeats(timeTrends.value, IdColumn, bins.value.labels);
    if regData.Failure? {
      return Failure(PivotFailed(regData.error));
    }
    RegFeatsWellFormed(timeTrends.value, IdColumn, bins.value.labels);
    if IdColumn !in regData.value.columns {
      return Failure(EmptyPivot);
    }
    var preds := Predictions(regData.value, clf);
    r := Success(SortBy(JoinAll(roster, preds), ResultKey));
  }

  // -----------------------------------------------------------------------
  // The reference: a patient's result from its notes alone

  /** A patient has a row in the score table. */
  predicate HasScores(scores: seq<ScoreRow>, id: int) {
    exists i :: 0 <= i < |scores| && scores[i].id == id
  }

  /** Quarter b of the two years after admission, counted in months. */
  function Quarter(b: nat): Window {
    Window(Month, 3 * b, 3 * b + 3)
  }

  /** Feature j of a patient: for quarter j / 2, the highest probability
      among the patient's notes in it (the prior when there are none) when j
      is even, the number of distinct positive notes in it when j is odd. */
  function QuarterFeature(scores: seq<ScoreRow>, anchors: map<int, Date>, id: int, j: nat): Value
    requires ValidAnchors(anchors)
  {
    if j % 2 == 0 then Num(Highest(WindowRows(scores, anchors, Quarter(j / 2), id)))
    else Num(|HitSet(scores, anchors, Quarter(j / 2), id)| as real)
  }

  /** The classifier's input for a patient: the sixteen features of the
      eight quarters. */
  function QuarterFeatures(scores: seq<ScoreRow>, anchors: map<int, Date>, id: int): (x: seq<Value>)
    requires ValidAnchors(anchors)
    ensures |x| == 16
  {
    seq(16, j requires 0 <= j < 16 => QuarterFeature(scores, anchors, id, j))
  }

  /** Feature 2b is the top probability of quarter b, from month 3b to
      month 3b+3, and feature 2b+1 its number of distinct positive notes. */
  lemma QuarterFeaturesAt(scores: seq<ScoreRow>, anchors: map<int, Date>, id: int, b: nat)
    requires ValidAnchors(anchors) && b < 8
    ensures var w := Window(Month, 3 * b, 3 * b + 3);
      && QuarterFeatures(scores, anchors, id)[2 * b] == Num(Highest(WindowRows(scores, anchors, w, id)))
      && QuarterFeatures(scores, anchors, id)[2 * b + 1] == Num(|HitSet(scores, anchors, w, id)| as real)
  {
    var x := QuarterFeatures(scores, anchors, id);
    assert x[2 * b] == QuarterFeature(scores, anchors, id, 2 * b);
    assert x[2 * b + 1] == QuarterFeature(scores, anchors, id, 2 * b + 1);
    assert (2 * b) / 2 == b && (2 * b) % 2 == 0;
    assert (2 * b + 1) / 2 == b && (2 * b + 1) % 2 == 1;
  }

  /** The result a roster patient should get: a patient with scored notes
      (positive or not) is classified on its quarterly features; any other
      gets prediction 0 and probability 0. */
  function Expected(anchors: map<int, Date>, scores: seq<ScoreRow>, clf: seq<Value> -> real, a: B.Admission): PatientResult
    requires ValidAnchors(anchors)
  {
    if HasScores(scores, a.id) then
      var p := clf(QuarterFeatures(scores, anchors, a.id));
      PatientResult(a.id, a.admit, if p >= Threshold then 1 else 0, p)
    else PatientResult(a.id, a.admit, 0, 0.0)
  }

  function ExpectedAll(roster: seq<B.Admission>, scores: seq<ScoreRow>, clf: seq<Value> -> real): (r: seq<PatientResult>)
    requires B.ValidRoster(roster) && UniqueIds(roster)
    ensures |r| == |roster|
  {
    seq(|roster|, i requires 0 <= i < |roster| => Expected(AnchorsOf(roster), scores, clf, roster[i]))
  }

  // -----------------------------------------------------------------------
  // The quarterly bins

  function QuarterBins(): (q: Bins)
    ensures BinsOf(QuarterWindow, Years) == Success(q)
  {
    BinsFailIffUnknown(QuarterWindow, Years);
    BinsOf(QuarterWindow, Years).value
  }

  /** Eight quarters from 0 to 24 months, from month 3b to month 3b+3. */
  lemma QuarterShape()
    ensures var q := QuarterBins();
      && |q.labels| == 8 && |q.starts| == 8 && |q.ends| == 8
      && (forall b :: 0 <= b < 8 ==> q.starts[b] == 3 * b && q.ends[b] == 3 * b + 3)
  {
    var q := QuarterBins();
    BinsLength(QuarterWindow, Years);
    var w := WindowOf(QuarterWindow).value;
    assert w.perYear == 12 && w.step == 3;
    var e := Years * w.perYear + 1;
    assert q.starts == Arange(0, e - w.step, w.step) && q.ends == Arange(w.step, e, w.step);
    RangesContiguous(e, w.step);
  }

  /** The quarter labels are distinct and none of them writes the id column. */
  lemma QuarterLabels()
    ensures DistinctLabels(QuarterBins().labels) && NotWritten(IdColumn, QuarterBins().labels, 0)
  {
    var q := QuarterBins();
    BinLabelsRoundTrip(QuarterWindow, Years);
    forall b | 0 <= b < |q.labels|
      ensures IdColumn != ProbName(q.labels[b]) && IdColumn != HitsName(q.labels[b])
    {
      assert ProbName(q.labels[b])[0] == 'p' && HitsName(q.labels[b])[0] == 'n' && IdColumn[0] == 'P';
    }
  }

  /** Each quarter is counted in months, from its own start to its own end. */
  lemma QuarterWindowAt(b: nat)
    requires b < 8
    ensures var q := QuarterBins();
      b < |q.labels| && b < |q.starts| && b < |q.ends|
      && WindowAt(q.starts, q.ends, q.labels, b) == Some(Window(Month, 3 * b, 3 * b + 3))
  {
    QuarterShape();
    MakeBinsWindows(QuarterWindow, Years, b);
  }

  /** What the rest of a run needs of the bins. */
  predicate QuarterLayout(q: Bins) {
    && |q.labels| == 8 && |q.starts| == 8 && |q.ends| == 8
    && DistinctLabels(q.labels) && NotWritten(IdColumn, q.labels, 0)
    && forall b :: 0 <= b < 8 ==> WindowAt(q.starts, q.ends, q.labels, b) == Some(Window(Month, 3 * b, 3 * b + 3))
  }

  lemma QuarterBinsLayout()
    ensures QuarterLayout(QuarterBins())
  {
    QuarterShape();
    QuarterLabels();
    forall b | 0 <= b < 8
      ensures WindowAt(QuarterBins().starts, QuarterBins().ends, QuarterBins().labels, b) == Some(Window(Month, 3 * b, 3 * b + 3))
    {
      QuarterWindowAt(b);
    }
  }

  lemma {:induction false} FeatureNamesAt(labels: seq<string>, b: nat)
    requires b < |labels|
    ensures FeatureNames(labels)[2 * b] == ProbName(labels[b])
    ensures FeatureNames(labels)[2 * b + 1] == HitsName(labels[b])
  {
    if b > 0 {
      FeatureNamesAt(labels[1..], b - 1);
    }
  }

  // -----------------------------------------------------------------------
  // The intermediate tables of a run

  /** The aggregation over the quarters gave T and its pivot gave reg. */
  predicate Stages(scores: seq<ScoreRow>, anchors: map<int, Date>, q: Bins, T: seq<Trend>, reg: Table) {
    && ValidAnchors(anchors) && QuarterLayout(q)
    && TimeTrends(scores, anchors, q.starts, q.ends, q.labels) == Success(T)
    && RegFeats(T, IdColumn, q.labels) == Success(reg)
  }

  /** With scored notes, the pivot has a row per scored patient in ascending
      id, under `PatientID` and the sixteen feature columns. */
  lemma PivotShape(scores: seq<ScoreRow>, anchors: map<int, Date>, q: Bins, T: seq<Trend>, reg: Table)
    requires Stages(scores, anchors, q, T, reg) && scores != []
    ensures WellFormed(reg) && |reg.rows| == |Subjects(scores)|
    ensures reg.columns == [IdColumn] + FeatureNames(q.labels) && |reg.columns| == 17
  {
    SubjectsMembers(scores);
    assert scores[0].id in Subjects(scores);
    TrendsPivotSubjects(scores, anchors, q.starts, q.ends, q.labels, T);
    RegFeatsShape(T, IdColumn, q.labels);
    RegColumnsLayout(IdColumn, q.labels);
  }

  /** The two feature cells of quarter b in the k-th pivot row are the
      k-th scored patient's features of that quarter. */
  lemma PivotCells(scores: seq<ScoreRow>, anchors: map<int, Date>, q: Bins, T: seq<Trend>, reg: Table, k: nat, b: nat)
    requires Stages(scores, anchors, q, T, reg) && scores != []
    requires k < |Subjects(scores)| && b < 8
    ensures WellFormed(reg) && k < |reg.rows| && |reg.columns| == 17
    ensures var x := QuarterFeatures(scores, anchors, Subjects(scores)[k]);
      && Cell(reg, k, reg.columns[1 + 2 * b]) == x[2 * b]
      && Cell(reg, k, reg.columns[2 + 2 * b]) == x[2 * b + 1]
  {
    PivotShape(scores, anchors, q, T, reg);
    FeatureNamesAt(q.labels, b);
    TrendsRegFeatsCell(scores, anchors, q.starts, q.ends, q.labels, T, IdColumn, k, b);
    QuarterFeaturesAt(scores, anchors, Subjects(scores)[k], b);
    assert reg.columns[1 + 2 * b] == FeatureNames(q.labels)[2 * b];
    assert reg.columns[2 + 2 * b] == FeatureNames(q.labels)[2 * b + 1];
  }

  /** The id cell of the k-th pivot row is the k-th scored patient's id. */
  lemma PivotId(scores: seq<ScoreRow>, anchors: map<int, Date>, q: Bins, T: seq<Trend>, reg: Table, k: nat)
    requires Stages(scores, anchors, q, T, reg) && scores != []
    requires k < |Subjects(scores)|
    ensures WellFormed(reg) && k < |reg.rows| && IdColumn in reg.columns
    ensures Cell(reg, k, IdColumn) == Num(Subjects(scores)[k] as real)
  {
    PivotShape(scores, anchors, q, T, reg);
    TrendsRegFeatsCell(scores, anchors, q.starts, q.ends, q.labels, T, IdColumn, k, 0);
  }

  /** The classifier's input for the k-th pivot row is the k-th scored
      patient's quarterly features. */
  lemma PivotFeatures(scores: seq<ScoreRow>, anchors: map<int, Date>, q: Bins, T: seq<Trend>, reg: Table, k: nat)
    requires Stages(scores, anchors, q, T, reg) && scores != []
    requires k < |Subjects(scores)|
    ensures WellFormed(reg) && IdColumn in reg.columns && k < |reg.rows|
    ensures forall n :: n in reg.columns[1..] ==> n in reg.columns
    ensures Select(reg, reg.columns[1..]).rows[k] == QuarterFeatures(scores, anchors, Subjects(scores)[k])
  {
    PivotShape(scores, anchors, q, T, reg);
    assert reg.columns[0] == IdColumn;
    assert forall n :: n in reg.columns[1..] ==> n in reg.columns;
    var x := Select(reg, reg.columns[1..]);
    var f := QuarterFeatures(scores, anchors, Subjects(scores)[k]);
    forall j | 0 <= j < 16
      ensures x.rows[k][j] == f[j]
    {
      var b := j / 2;
      Halves(j);
      PivotCells(scores, anchors, q, T, reg, k, b);
      if j == 2 * b {
        assert x.rows[k][j] == Cell(reg, k, reg.columns[1 + 2 * b]);
      } else {
        assert x.rows[k][j] == Cell(reg, k, reg.columns[2 + 2 * b]);
      }
    }
    assert x.rows[k] == f;
  }

  /** The k-th prediction belongs to the k-th scored patient and is the
      classifier's verdict on its quarterly features. */
  lemma PredictionAt(scores: seq<ScoreRow>, anchors: map<int, Date>, q: Bins, T: seq<Trend>, reg: Table,
                     clf: seq<Value> -> real, k: nat)
    requires Stages(scores, anchors, q, T, reg) && scores != []
    requires k < |Subjects(scores)|
    ensures WellFormed(reg) && IdColumn in reg.columns && k < |reg.rows|
    ensures var p := clf(QuarterFeatures(scores, anchors, Subjects(scores)[k]));
      Predictions(reg, clf)[k] == Prediction(Num(Subjects(scores)[k] as real), if p >= Threshold then 1 else 0, p)
  {
    PivotFeatures(scores, anchors, q, T, reg, k);
    PivotId(scores, anchors, q, T, reg, k);
    PredictionsAt(reg, clf, k);
  }

  lemma PredictionsAt(reg: Table, clf: seq<Value> -> real, k: nat)
    requires WellFormed(reg) && IdColumn in reg.columns && k < |reg.rows|
    ensures forall n :: n in reg.columns[1..] ==> n in reg.columns
    ensures var p := clf(Select(reg, reg.columns[1..]).rows[k]);
      Predictions(reg, clf)[k] == Prediction(Cell(reg, k, IdColumn), if p >= Threshold then 1 else 0, p)
  {
  }

  lemma Halves(j: nat)
    ensures j == 2 * (j / 2) || j == 2 * (j / 2) + 1
  {
  }

  /** The predictions carry the scored patients' ids, in ascending order. */
  lemma PredictionIds(scores: seq<ScoreRow>, anchors: map<int, Date>, q: Bins, T: seq<Trend>, reg: Table, clf: seq<Value> -> real)
    requires Stages(scores, anchors, q, T, reg) && scores != []
    ensures WellFormed(reg) && IdColumn in reg.columns
    ensures var preds := Predictions(reg, clf);
      && |preds| == |Subjects(scores)|
      && forall k :: 0 <= k < |preds| ==> preds[k].id == Num(Subjects(scores)[k] as real)
  {
    PivotShape(scores, anchors, q, T, reg);
    forall k | 0 <= k < |Subjects(scores)|
      ensures Predictions(reg, clf)[k].id == Num(Subjects(scores)[k] as real)
    {
      PredictionAt(scores, anchors, q, T, reg, clf, k);
    }
  }

  /** Every roster row's joined result is its expected result. */
  lemma JoinedExpected(scores: seq<ScoreRow>, anchors: map<int, Date>, q: Bins, T: seq<Trend>, reg: Table,
                       clf: seq<Value> -> real, a: B.Admission)
    requires Stages(scores, anchors, q, T, reg) && scores != []
    ensures WellFormed(reg) && IdColumn in reg.columns
    ensures Joined(a, Predictions(reg, clf)) == Expected(anchors, scores, clf, a)
  {
    var pts := Subjects(scores);
    PredictionIds(scores, anchors, q, T, reg, clf);
    var preds := Predictions(reg, clf);
    var key := Num(a.id as real);
    SubjectsMembers(scores);
    if HasScores(scores, a.id) {
      var i :| 0 <= i < |scores| && scores[i].id == a.id;
      assert a.id in pts;
      var k :| 0 <= k < |pts| && pts[k] == a.id;
      PredictionAt(scores, anchors, q, T, reg, clf, k);
      assert forall k' :: 0 <= k' < k ==> pts[k'] < pts[k];
      LookupAt(preds, key, k);
    } else {
      assert forall k :: 0 <= k < |pts| ==> pts[k] in pts;
    }
  }

  // -----------------------------------------------------------------------
  // What the output says

  /** A run goes through the quarterly bins, the aggregation and the pivot,
      none of which fails; what decides the outcome is whether the pivot has
      an id column. */
  lemma OutcomeStages(roster: seq<B.Admission>, scores: seq<ScoreRow>, clf: seq<Value> -> real)
    returns (q: Bins, T: seq<Trend>, reg: Table)
    requires B.ValidRoster(roster) && UniqueIds(roster)
    ensures Stages(scores, AnchorsOf(roster), q, T, reg) && WellFormed(reg)
    ensures Outcome(roster, scores, clf) ==
      if IdColumn in reg.columns then Success(SortBy(JoinAll(roster, Predictions(reg, clf)), ResultKey))
      else Failure(EmptyPivot)
  {
    q := QuarterBins();
    var anchors := AnchorsOf(roster);
    QuarterBinsLayout();
    MakeBinsTrendsSucceed(scores, anchors, QuarterWindow, Years);
    T := TimeTrends(scores, anchors, q.starts, q.ends, q.labels).value;
    TrendsRegFeatsSucceed(scores, anchors, q.starts, q.ends, q.labels, T, IdColumn);
    reg := RegFeats(T, IdColumn, q.labels).value;
    RegFeatsWellFormed(T, IdColumn, q.labels);
  }

  /** The stage fails exactly when there are no scored notes. */
  lemma OutcomeFailure(roster: seq<B.Admission>, scores: seq<ScoreRow>, clf: seq<Value> -> real)
    requires B.ValidRoster(roster) && UniqueIds(roster)
    ensures Outcome(roster, scores, clf).Failure? <==> scores == []
    ensures scores == [] ==> Outcome(roster, scores, clf) == Failure(EmptyPivot)
  {
    var q, T, reg := OutcomeStages(roster, scores, clf);
    if scores == [] {
      assert Subjects(scores) == [];
      TimeTrendsLength(scores, AnchorsOf(roster), q.starts, q.ends, q.labels, T);
      RegFeatsEmpty(T, IdColumn, q.labels);
    } else {
      PivotShape(scores, AnchorsOf(roster), q, T, reg);
    }
  }

  /** With scored notes, the output is the expected result of every roster
      row, sorted by id: a patient with scored notes, positive or not, gets
      the classifier's verdict on its quarterly features, any other roster
      patient gets 0 and 0, and scored patients missing from the roster are
      dropped. */
  lemma OutcomeCorrect(roster: seq<B.Admission>, scores: seq<ScoreRow>, clf: seq<Value> -> real)
    requires B.ValidRoster(roster) && UniqueIds(roster) && scores != []
    ensures Outcome(roster, scores, clf) == Success(SortBy(ExpectedAll(roster, scores, clf), ResultKey))
  {
    var q, T, reg := OutcomeStages(roster, scores, clf);
    var anchors := AnchorsOf(roster);
    PivotShape(scores, anchors, q, T, reg);
    var preds := Predictions(reg, clf);
    forall i | 0 <= i < |roster|
      ensures JoinAll(roster, preds)[i] == ExpectedAll(roster, scores, clf)[i]
    {
      JoinedExpected(scores, anchors, q, T, reg, clf, roster[i]);
    }
    assert JoinAll(roster, preds) == ExpectedAll(roster, scores, clf);
  }

  /** The output has one row per roster row, in ascending id, each with the
      roster's admission date, prediction 1 exactly when the probability
      reaches 0.3, and prediction and probability 0 for a patient without
      scored notes. */
  lemma OutcomeRows(roster: seq<B.Admission>, scores: seq<ScoreRow>, clf: seq<Value> -> real)
    requires B.ValidRoster(roster) && UniqueIds(roster) && scores != []
    ensures Outcome(roster, scores, clf).Success?
    ensures var out := Outcome(roster, scores, clf).value;
      && |out| == |roster| && SortedBy(out, ResultKey)
      && multiset(out) == multiset(ExpectedAll(roster, scores, clf))
    ensures forall a :: a in roster ==>
      var e := Expected(AnchorsOf(roster), scores, clf, a);
      && e.id == a.id && e.admit == a.admit
      && (e.prediction == 1 <==> HasScores(scores, a.id) && e.probability >= 0.3)
      && (!HasScores(scores, a.id) ==> e.prediction == 0 && e.probability == 0.0)
  {
    OutcomeCorrect(roster, scores, clf);
    SortBySorted(ExpectedAll(roster, scores, clf), ResultKey);
  }

  /** A patient whose only note is negative is still classified: the
      positive-patient list the stage computes is never used. */
  lemma NegativeOnlyPatientClassified(clf: seq<Value> -> real, a: B.Admission, noteDate: Date, p0: real)
    requires B.ValidRoster([a])
    ensures UniqueIds([a])
    ensures var scores := [ScoreRow(a.id, noteDate, Num(0.0), p0, [])];
      var p := clf(QuarterFeatures(scores, AnchorsOf([a]), a.id));
      Outcome([a], scores, clf) == Success([PatientResult(a.id, a.admit, if p >= Threshold then 1 else 0, p)])
  {
    var scores := [ScoreRow(a.id, noteDate, Num(0.0), p0, [])];
    assert scores[0].id == a.id;
    OutcomeCorrect([a], scores, clf);
    var e := Expected(AnchorsOf([a]), scores, clf, a);
    var all := ExpectedAll([a], scores, clf);
    assert |all| == 1 && all[0] == e;
    assert all == [e];
    assert SortBy(all, ResultKey) == Insert(e, [], ResultKey) == [e];
    assert HasScores(scores, a.id);
    var p := clf(QuarterFeatures(scores, AnchorsOf([a]), a.id));
    assert e == PatientResult(a.id, a.admit, if p >= Threshold then 1 else 0, p);
  }
}
