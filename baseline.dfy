/** The baseline stage, utils/runBaseline_helper.py: the cohort of notes
    dated inside each patient's window (`build_cohort_deidentified`) and the
    baseline classifier's scores for them (`assign_scores`), with the
    classifier and its calibrated threshold as parameters. */
module Baseline {

  import opened Wrappers
  import opened Dates
  import opened Frames
  import opened Sorting

  // -----------------------------------------------------------------------
  // The cohort window

  /** One roster row: a patient and the anchor (admission) date. */
  datatype Admission = Admission(id: int, admit: Date)

  /** One clinical note. */
  datatype Note = Note(id: int, date: Date, noteId: int, text: string)

  /** A row of the merge of the roster's bounds with the notes. */
  datatype Bounded = Bounded(id: int, before: Date, after: Date, note: Note)

  predicate ValidRoster(roster: seq<Admission>) {
    forall i :: 0 <= i < |roster| ==> Valid(roster[i].admit)
  }

  /** `Date_before`: the admission date plus 7 days. */
  function WindowStart(a: Admission): Date
    requires Valid(a.admit)
  {
    AddDays(a.admit, 7)
  }

  /** `Date_after`: the admission date plus 2 calendar years. */
  function WindowEnd(a: Admission): Date
    requires Valid(a.admit)
  {
    AddYears(a.admit, 2)
  }

  /** The note belongs to the admission's patient and is dated from a week
      after admission to two years after it, both ends included. */
  predicate InCohortWindow(a: Admission, n: Note)
    requires Valid(a.admit)
  {
    a.id == n.id && Le(WindowStart(a), n.date) && Le(n.date, WindowEnd(a))
  }

  /** The merged rows of one admission: its bounds next to each of its
      patient's notes, in note order. */
  function Pairs(a: Admission, notes: seq<Note>): (r: seq<Bounded>)
    requires Valid(a.admit)
    ensures forall b :: b in r <==> (b.note in notes && b.note.id == a.id &&
      b == Bounded(a.id, WindowStart(a), WindowEnd(a), b.note))
  {
    if notes == [] then []
    else
      (if notes[0].id == a.id then [Bounded(a.id, WindowStart(a), WindowEnd(a), notes[0])] else [])
      + Pairs(a, notes[1..])
  }

  /** Some roster row of the note's patient gives the merged row its bounds. */
  predicate FromRoster(roster: seq<Admission>, b: Bounded)
    requires ValidRoster(roster)
  {
    exists i :: 0 <= i < |roster| && roster[i].id == b.id &&
      b.before == WindowStart(roster[i]) && b.after == WindowEnd(roster[i])
  }

  lemma FromRosterStep(roster: seq<Admission>)
    requires ValidRoster(roster) && roster != []
    ensures forall b :: FromRoster(roster, b) <==>
      (roster[0].id == b.id && b.before == WindowStart(roster[0]) && b.after == WindowEnd(roster[0]))
      || FromRoster(roster[1..], b)
  {
    forall b ensures FromRoster(roster, b) <==>
      (roster[0].id == b.id && b.before == WindowStart(roster[0]) && b.after == WindowEnd(roster[0]))
      || FromRoster(roster[1..], b)
    {
      FromRosterAt(roster, b);
    }
  }

  /** One merged row: its bounds come from the first roster row or from the rest. */
  lemma FromRosterAt(roster: seq<Admission>, b: Bounded)
    requires ValidRoster(roster) && roster != []
    ensures FromRoster(roster, b) <==>
      (roster[0].id == b.id && b.before == WindowStart(roster[0]) && b.after == WindowEnd(roster[0]))
      || FromRoster(roster[1..], b)
  {
    var tail := roster[1..];
    if FromRoster(tail, b) {
      var i :| 0 <= i < |tail| && tail[i].id == b.id &&
        b.before == WindowStart(tail[i]) && b.after == WindowEnd(tail[i]);
      assert tail[i] == roster[i + 1];
    }
    if FromRoster(roster, b) {
      var i :| 0 <= i < |roster| && roster[i].id == b.id &&
        b.before == WindowStart(roster[i]) && b.after == WindowEnd(roster[i]);
      if i > 0 {
        assert tail[i - 1] == roster[i];
      }
    }
  }

  /** The merge of the roster's bounds with the notes on `PatientID`, roster
      rows outer and notes inner. Rows of the outer join that have no partner
      carry missing bounds or a missing date and never pass the window
      filter, so they are not produced. */
  function MergeRows(roster: seq<Admission>, notes: seq<Note>): (r: seq<Bounded>)
    requires ValidRoster(roster)
    ensures forall b :: b in r <==> (b.note in notes && b.note.id == b.id && FromRoster(roster, b))
  {
    if roster == [] then []
    else
      var rest := MergeRows(roster[1..], notes);
      FromRosterStep(roster);
      Pairs(roster[0], notes) + rest
  }

  function BoundedKey(b: Bounded): Key {
    Key(b.id, 0, 0, 0)
  }

  predicate DatedInside(b: Bounded) {
    Le(b.before, b.note.date) && Le(b.note.date, b.after)
  }

  /** The window filter, then the bounds dropped. */
  function Inside(m: seq<Bounded>): (r: seq<Note>)
    ensures forall n :: n in r <==> exists b :: b in m && DatedInside(b) && b.note == n
  {
    if m == [] then []
    else
      var rest := Inside(m[1..]);
      assert forall b :: b in m <==> b == m[0] || b in m[1..];
      (if DatedInside(m[0]) then [m[0].note] else []) + rest
  }

  lemma DedupValid(roster: seq<Admission>)
    requires ValidRoster(roster)
    ensures ValidRoster(Dedup(roster))
    ensures forall a :: a in Dedup(roster) <==> a in roster
  {
    DedupMembers(roster);
    forall i | 0 <= i < |Dedup(roster)| ensures Valid(Dedup(roster)[i].admit) {
      assert Dedup(roster)[i] in roster;
    }
  }

  /** `build_cohort_deidentified` up to the external featuriser: the roster
      without repeated rows, merged with the notes on `PatientID` (sorted by
      the key, as an outer merge is), without repeated rows, filtered to the
      notes dated inside the window, the bounds dropped. */
  function CohortNotes(roster: seq<Admission>, notes: seq<Note>): seq<Note>
    requires ValidRoster(roster)
  {
    DedupValid(roster);
    Inside(Dedup(SortBy(MergeRows(Dedup(roster), notes), BoundedKey)))
  }

  /** The merged rows the window filter sees are those of the merge. */
  lemma CohortRows(roster: seq<Admission>, notes: seq<Note>)
    requires ValidRoster(roster)
    ensures ValidRoster(Dedup(roster))
    ensures CohortNotes(roster, notes) == Inside(Dedup(SortBy(MergeRows(Dedup(roster), notes), BoundedKey)))
    ensures forall b :: b in Dedup(SortBy(MergeRows(Dedup(roster), notes), BoundedKey)) <==>
      b in MergeRows(Dedup(roster), notes)
  {
    DedupValid(roster);
    var m := MergeRows(Dedup(roster), notes);
    SortByMembers(m, BoundedKey);
    DedupMembers(SortBy(m, BoundedKey));
  }

  lemma CohortSound(roster: seq<Admission>, notes: seq<Note>, n: Note)
    requires ValidRoster(roster) && n in CohortNotes(roster, notes)
    ensures n in notes && exists i :: 0 <= i < |roster| && InCohortWindow(roster[i], n)
  {
    CohortRows(roster, notes);
    var d := Dedup(roster);
    var m := MergeRows(d, notes);
    var rows := Dedup(SortBy(m, BoundedKey));
    assert n in Inside(rows);
    var b :| b in rows && DatedInside(b) && b.note == n;
    assert b in m;
    assert b.note in notes && FromRoster(d, b);
    var j :| 0 <= j < |d| && d[j].id == b.id && b.before == WindowStart(d[j]) && b.after == WindowEnd(d[j]);
    var a := d[j];
    assert InCohortWindow(a, n);
    assert a in roster;
    RosterRowWindow(roster, a, n);
  }

  lemma RosterRowWindow(roster: seq<Admission>, a: Admission, n: Note)
    requires Valid(a.admit) && a in roster && InCohortWindow(a, n)
    ensures exists i :: 0 <= i < |roster| && roster[i] == a && InCohortWindow(roster[i], n)
  {
    var k :| 0 <= k < |roster| && roster[k] == a;
  }

  lemma CohortComplete(roster: seq<Admission>, notes: seq<Note>, n: Note, i: nat)
    requires ValidRoster(roster) && n in notes && i < |roster| && InCohortWindow(roster[i], n)
    ensures n in CohortNotes(roster, notes)
  {
    CohortRows(roster, notes);
    DedupValid(roster);
    var d := Dedup(roster);
    assert roster[i] in d;
    var j :| 0 <= j < |d| && d[j] == roster[i];
    var b := Bounded(d[j].id, WindowStart(d[j]), WindowEnd(d[j]), n);
    assert FromRoster(d, b);
    assert b in MergeRows(d, notes) && DatedInside(b);
  }

  /** A note is in the cohort iff it is one of the notes and its patient has
      a roster row whose window, from admission + 7 days to admission + 2
      years inclusive, contains the note's date. */
  lemma CohortMembership(roster: seq<Admission>, notes: seq<Note>, n: Note)
    requires ValidRoster(roster)
    ensures n in CohortNotes(roster, notes) <==>
      n in notes && exists i :: 0 <= i < |roster| && InCohortWindow(roster[i], n)
  {
    if n in CohortNotes(roster, notes) {
      CohortSound(roster, notes, n);
    }
    if n in notes && exists i :: 0 <= i < |roster| && InCohortWindow(roster[i], n) {
      var i :| 0 <= i < |roster| && InCohortWindow(roster[i], n);
      CohortComplete(roster, notes, n, i);
    }
  }

  // -----------------------------------------------------------------------
  // The training schema

  /** The columns removed from the training frame one by one: the ICD,
      demographic and medication features the text-only model does not use. */
  const ExcludedColumns: seq<string> := [
    "convulsions seizures", "epilepsy and recurrent seizures",
    "syncope", "n_icds", "Age", "Sex",
    "n_meds", "Acetazolamide", "Brivaracetam", "Cannabidiol",
    "carbamezapine", "cenobamate", "clobazam", "clonazepam", "clorazepate",
    "diazepam", "eslicarbazepine", "ethosuximide", "ezogabine", "felbamate",
    "gabapentin", "ketamine", "lacosamide", "lamotrigine", "levetiracetam",
    "lorazepam", "methsuximide", "midazolam", "oxcarbazepine", "perampanel",
    "phenobarbital", "phenytoin", "pregabalin", "primidone", "rufinamide",
    "tiagabine", "topiramate", "valproic acid", "zonisamide"]

  /** The names of cols other than those listed, in order. */
  function Without(cols: seq<string>, names: seq<string>): (r: seq<string>)
    ensures forall c :: c in r <==> c in cols && c !in names
  {
    if cols == [] then []
    else if cols[0] in names then Without(cols[1..], names)
    else [cols[0]] + Without(cols[1..], names)
  }

  /** `X_train.drop(columns=name)` on the training columns: fails if the
      name is not a column, otherwise removes every column of that name. */
  function DropName(cols: seq<string>, name: string): Result<seq<string>, SchemaError> {
    if name !in cols then Failure(MissingColumn(name)) else Success(Without(cols, [name]))
  }

  /** The columns left after dropping names[i], names[i+1], ... one at a time;
      the first drop of a name that is not (or no longer) there fails. */
  function DropEach(cols: seq<string>, names: seq<string>): Result<seq<string>, SchemaError>
    decreases |names|
  {
    if names == [] then Success(cols)
    else
      match DropName(cols, names[0])
      case Failure(e) => Failure(e)
      case Success(rest) => DropEach(rest, names[1..])
  }

  /** The exclusion loop: `X_train = X_train.drop(columns=i)` for every
      listed name in turn. */
  method DropAll(trainCols: seq<string>, names: seq<string>) returns (r: Result<seq<string>, SchemaError>)
    ensures r == DropEach(trainCols, names)
  {
    var cols := trainCols;
    ghost var goal := DropEach(trainCols, names);
    for i := 0 to |names|
      invariant DropEach(cols, names[i..]) == goal
    {
      assert names[i..][1..] == names[i + 1..];
      var dropped := DropName(cols, names[i]);
      if dropped.Failure? {
        return Failure(dropped.error);
      }
      cols := dropped.value;
    }
    assert names[|names|..] == [];
    r := Success(cols);
  }

  lemma WithoutTwice(cols: seq<string>, a: seq<string>, b: seq<string>)
    ensures Without(Without(cols, a), b) == Without(cols, a + b)
  {
  }

  /** The condition under which dropping the names one at a time succeeds:
      each is a column and none is listed twice. */
  predicate Droppable(cols: seq<string>, names: seq<string>) {
    forall i :: 0 <= i < |names| ==> names[i] in cols && names[i] !in names[..i]
  }

  lemma DroppableStep(cols: seq<string>, names: seq<string>)
    requires names != [] && names[0] in cols
    ensures Droppable(cols, names) <==> Droppable(Without(cols, [names[0]]), names[1..])
  {
    var rest := Without(cols, [names[0]]);
    forall i | 1 <= i < |names|
      ensures (names[i] in cols && names[i] !in names[..i]) <==> (names[1..][i - 1] in rest && names[1..][i - 1] !in names[1..][..i - 1])
    {
      assert names[..i] == [names[0]] + names[1..][..i - 1];
    }
    assert names[..0] == [];
  }

  /** Dropping the names one at a time succeeds iff every name is a column
      and no name is listed twice; it then leaves exactly the columns not
      listed, in their order. */
  lemma {:induction false} DropEachSpec(cols: seq<string>, names: seq<string>)
    ensures DropEach(cols, names).Success? <==> Droppable(cols, names)
    ensures DropEach(cols, names).Success? ==> DropEach(cols, names).value == Without(cols, names)
    decreases |names|
  {
    if names == [] {
      assert Without(cols, []) == cols by { WithoutNone(cols); }
    } else if names[0] in cols {
      var rest := Without(cols, [names[0]]);
      DropEachSpec(rest, names[1..]);
      DroppableStep(cols, names);
      WithoutTwice(cols, [names[0]], names[1..]);
      assert [names[0]] + names[1..] == names;
    } else {
      assert names[0] !in cols;
    }
  }

  lemma {:induction false} WithoutNone(cols: seq<string>)
    ensures Without(cols, []) == cols
  {
    if cols != [] {
      WithoutNone(cols[1..]);
    }
  }

  // -----------------------------------------------------------------------
  // Scoring the notes

  datatype BaselineError =
    | Schema(error: SchemaError)   // a column to drop is missing
    | NoNotes                      // the classifier is given no rows

  /** The test frame after `fillna(0)` and dropping repeated column names. */
  function CleanTest(dfTest: Table): (r: Table)
    requires WellFormed(dfTest)
    ensures WellFormed(r) && |r.rows| == |dfTest.rows|
  {
    DropDuplicatedColumns(FillNA(dfTest, Zero))
  }

  const IdColumns: seq<string> := ["PatientID", "Date"]

  /** The classifier's input: the cleaned test frame without the id and date,
      aligned to the training columns. */
  function ClassifierInput(dfTest: Table, trainCols: seq<string>): Result<Table, SchemaError>
    requires WellFormed(dfTest)
  {
    match DropColumns(CleanTest(dfTest), IdColumns)
    case Failure(e) => Failure(e)
    case Success(xTest) => Success(Aligned(xTest, trainCols))
  }

  /** The answer for a positive-class probability: 1 iff it reaches the
      threshold. */
  function Decide(p: real, threshold: real): (a: real)
    ensures a == 1.0 <==> p >= threshold
    ensures a == 0.0 <==> p < threshold
  {
    if p >= threshold then 1.0 else 0.0
  }

  /** A higher probability never gets a lower answer. */
  lemma DecideMonotone(p: real, q: real, threshold: real)
    requires p <= q
    ensures Decide(p, threshold) <= Decide(q, threshold)
  {
  }

  /** The scored frame: the cleaned test frame with `prob_NO`, `prob_YES`
      and `model_answer` appended to every row. */
  function ScoredTable(clean: Table, x: Table, clf: seq<Value> -> real, threshold: real): Table
    requires WellFormed(clean) && WellFormed(x) && |x.rows| == |clean.rows|
  {
    Table(clean.columns + ["prob_NO", "prob_YES", "model_answer"],
      seq(|clean.rows|, k requires 0 <= k < |clean.rows| =>
        clean.rows[k] + [Num(1.0 - clf(x.rows[k])), Num(clf(x.rows[k])), Num(Decide(clf(x.rows[k]), threshold))]))
  }

  /** What `assign_scores` returns for the featurised notes, the training
      frame's columns, the classifier and the threshold. */
  function AssignedScores(exclude: seq<string>, dfTest: Table, trainCols: seq<string>, clf: seq<Value> -> real, threshold: real)
    : Result<Table, BaselineError>
    requires WellFormed(dfTest)
  {
    match DropEach(trainCols, exclude)
    case Failure(e) => Failure(Schema(e))
    case Success(train) =>
      match ClassifierInput(dfTest, train)
      case Failure(e) => Failure(Schema(e))
      case Success(x) =>
        if |x.rows| == 0 then Failure(NoNotes)
        else Success(ScoredTable(CleanTest(dfTest), x, clf, threshold))
  }

  /** `assign_scores`: the exclusion loop on the training columns, the
      cleaning of the test frame, the loop adding missing training columns as
      zeros, the reordering, then the classifier's probabilities and answers. */
  method AssignScores(dfTest: Table, trainCols: seq<string>, clf: seq<Value> -> real, threshold: real)
    returns (r: Result<Table, BaselineError>)
    requires WellFormed(dfTest)
    ensures r == AssignedScores(ExcludedColumns, dfTest, trainCols, clf, threshold)
  {
    var train := DropAll(trainCols, ExcludedColumns);
    if train.Failure? {
      return Failure(Schema(train.error));
    }
    var clean := DropDuplicatedColumns(FillNA(dfTest, Zero));
    var xTest := DropColumns(clean, IdColumns);
    if xTest.Failure? {
      return Failure(Schema(xTest.error));
    }
    var x := AlignToSchema(xTest.value, train.value);
    if |x.rows| == 0 {
      return Failure(NoNotes);
    }
    r := Success(ScoredTable(clean, x, clf, threshold));
  }

  // -----------------------------------------------------------------------
  // What the scores say

  /** The stage fails exactly when an excluded column is missing from (or
      listed twice against) the training columns, when the test frame has no
      `PatientID` or no `Date`, or when there are no notes. */
  lemma AssignedScoresFailure(exclude: seq<string>, dfTest: Table, trainCols: seq<string>, clf: seq<Value> -> real, threshold: real)
    requires WellFormed(dfTest)
    ensures AssignedScores(exclude, dfTest, trainCols, clf, threshold).Failure? <==>
      || !Droppable(trainCols, exclude)
      || "PatientID" !in dfTest.columns || "Date" !in dfTest.columns
      || |dfTest.rows| == 0
  {
    DropEachSpec(trainCols, exclude);
    DropDuplicatedColumnsSpec(FillNA(dfTest, Zero));
    assert forall n :: n in IdColumns <==> n == "PatientID" || n == "Date";
  }

  /** The value `fillna(0)` leaves in a cell. */
  function Filled(v: Value): Value {
    if v == NA then Zero else v
  }

  /** The classifier sees exactly the training columns, in training order:
      under a training column the test frame also has (other than `PatientID`
      and `Date`), the test value with missing values as 0 (the first column
      of a repeated name); under any other, 0. */
  lemma ClassifierInputCells(dfTest: Table, trainCols: seq<string>, k: nat, j: nat)
    requires WellFormed(dfTest) && ClassifierInput(dfTest, trainCols).Success?
    requires k < |dfTest.rows| && j < |trainCols|
    ensures var x := ClassifierInput(dfTest, trainCols).value;
      && WellFormed(x) && x.columns == trainCols && |x.rows| == |dfTest.rows|
      && x.rows[k][j] == if trainCols[j] in dfTest.columns && trainCols[j] !in IdColumns
                        then Filled(Cell(dfTest, k, trainCols[j])) else Zero
  {
    var filled := FillNA(dfTest, Zero);
    var clean := CleanTest(dfTest);
    var xTest := DropColumns(clean, IdColumns).value;
    DropDuplicatedColumnsSpec(filled);
    DropColumnsCells(clean, IdColumns);
    var c := trainCols[j];
    var x := Aligned(xTest, trainCols);
    assert ClassifierInput(dfTest, trainCols).value == x;
    assert x.rows[k][j] == if c in xTest.columns then Cell(xTest, k, c) else Zero;
    assert c in xTest.columns <==> c in dfTest.columns && c !in IdColumns;
    if c in xTest.columns {
      assert Cell(xTest, k, c) == Cell(clean, k, c) == Cell(filled, k, c);
    }
  }

  /** Every scored row is the cleaned note row followed by the classifier's
      two probabilities, which sum to 1, and its answer, which is 1 iff the
      positive-class probability reaches the threshold and 0 otherwise. */
  lemma AssignedScoresRows(exclude: seq<string>, dfTest: Table, trainCols: seq<string>, clf: seq<Value> -> real, threshold: real, k: nat)
    requires WellFormed(dfTest) && AssignedScores(exclude, dfTest, trainCols, clf, threshold).Success?
    requires k < |dfTest.rows|
    ensures DropEach(trainCols, exclude).Success?
    ensures ClassifierInput(dfTest, DropEach(trainCols, exclude).value).Success?
    ensures var out := AssignedScores(exclude, dfTest, trainCols, clf, threshold).value;
      var clean := CleanTest(dfTest);
      var x := ClassifierInput(dfTest, DropEach(trainCols, exclude).value).value;
      var n := |clean.columns|;
      && WellFormed(out) && |out.rows| == |dfTest.rows| && k < |x.rows|
      && out.columns == clean.columns + ["prob_NO", "prob_YES", "model_answer"]
      && out.rows[k][..n] == clean.rows[k]
      && out.rows[k][n] == Num(1.0 - clf(x.rows[k]))
      && out.rows[k][n + 1] == Num(clf(x.rows[k]))
      && (out.rows[k][n + 2] == Num(1.0) <==> clf(x.rows[k]) >= threshold)
      && (out.rows[k][n + 2] == Num(0.0) <==> clf(x.rows[k]) < threshold)
  {
    var train := DropEach(trainCols, exclude).value;
    var x := ClassifierInput(dfTest, train).value;
    var clean := CleanTest(dfTest);
    var out := AssignedScores(exclude, dfTest, trainCols, clf, threshold).value;
    assert out == ScoredTable(clean, x, clf, threshold);
    ScoredRow(clean, x, clf, threshold, k);
  }

  /** Row k of the scored frame is the cleaned row with the two
      probabilities and the answer after it. */
  lemma ScoredRow(clean: Table, x: Table, clf: seq<Value> -> real, threshold: real, k: nat)
    requires WellFormed(clean) && WellFormed(x) && |x.rows| == |clean.rows| && k < |clean.rows|
    ensures var out := ScoredTable(clean, x, clf, threshold);
      var n := |clean.columns|;
      var p := clf(x.rows[k]);
      && WellFormed(out) && |out.rows| == |clean.rows|
      && out.columns == clean.columns + ["prob_NO", "prob_YES", "model_answer"]
      && out.rows[k][..n] == clean.rows[k]
      && out.rows[k][n] == Num(1.0 - p) && out.rows[k][n + 1] == Num(p)
      && (out.rows[k][n + 2] == Num(1.0) <==> p >= threshold)
      && (out.rows[k][n + 2] == Num(0.0) <==> p < threshold)
  {
    var p := clf(x.rows[k]);
    var row := ScoredTable(clean, x, clf, threshold).rows[k];
    assert row == clean.rows[k] + [Num(1.0 - p), Num(p), Num(Decide(p, threshold))];
    assert row[..|clean.rows[k]|] == clean.rows[k];
  }
}
