/** The pivot from aggregated records to one feature row per subject,
    `gen_regFeats` in utils/trend_helper.py: for every subject and every bin
    label, a `p_<label>` column holding the bin's highest probability and an
    `n_<label>` column holding its number of hits. */
module Pivot {

  import opened Wrappers
  import opened Dates
  import opened Frames
  import opened Sorting
  import opened Trends

  datatype PivotError = MissingBin(id: int, interval: string)   // no record for this subject and label

  function TrendIds(data: seq<Trend>): (r: seq<int>)
    ensures |r| == |data| && forall i :: 0 <= i < |data| ==> r[i] == data[i].id
  {
    seq(|data|, i requires 0 <= i < |data| => data[i].id)
  }

  /** The subjects of the pivot: the distinct ids of the records, ascending. */
  function PivotSubjects(data: seq<Trend>): seq<int> {
    Unique(TrendIds(data))
  }

  /** The first record of the subject with this label (what `[0]` reads after
      the two filters and `reset_index`), if there is one. */
  function FirstMatch(data: seq<Trend>, id: int, tag: string): (r: Option<Trend>)
    ensures r.Some? ==> r.value in data && r.value.id == id && r.value.interval == tag
    ensures r.None? <==> forall i :: 0 <= i < |data| ==> !(data[i].id == id && data[i].interval == tag)
  {
    if data == [] then None
    else if data[0].id == id && data[0].interval == tag then Some(data[0])
    else
      var r := FirstMatch(data[1..], id, tag);
      assert forall i :: 1 <= i < |data| ==> data[i] == data[1..][i - 1];
      r
  }

  /** The value of the named cell of a row under its column list (the first
      column of that name). */
  function RowCell(cols: seq<string>, row: seq<Value>, name: string): Value
    requires |row| == |cols| && name in cols
  {
    row[IndexOf(cols, name)]
  }

  /** `temp.at[s, name] = v` on a one-row frame: overwrite the column if it is
      there, otherwise add it at the right. */
  function Put(cols: seq<string>, row: seq<Value>, name: string, v: Value): (r: (seq<string>, seq<Value>))
    requires |cols| == |row|
    ensures |r.0| == |r.1| && r.0 == AddName(cols, name) && name in r.0
  {
    if name in cols then (cols, row[IndexOf(cols, name) := v]) else (cols + [name], row + [v])
  }

  /** The written cell holds the new value. */
  lemma PutHere(cols: seq<string>, row: seq<Value>, name: string, v: Value)
    requires |cols| == |row|
    ensures RowCell(Put(cols, row, name, v).0, Put(cols, row, name, v).1, name) == v
  {
    if name !in cols {
      assert (cols + [name])[..|cols|] == cols;
    }
  }

  function AddName(cols: seq<string>, name: string): seq<string> {
    if name in cols then cols else cols + [name]
  }

  /** Writing one cell leaves every other column where it was and as it was. */
  lemma PutOthers(cols: seq<string>, row: seq<Value>, name: string, v: Value, c: string)
    requires |cols| == |row| && c in cols && c != name
    ensures var r := Put(cols, row, name, v);
      c in r.0 && IndexOf(r.0, c) == IndexOf(cols, c) && RowCell(r.0, r.1, c) == RowCell(cols, row, c)
  {
    if name !in cols {
      IndexOfAppend(cols, name, c);
    }
  }

  function ProbName(tag: string): string {
    "p_" + tag
  }

  function HitsName(tag: string): string {
    "n_" + tag
  }

  /** The columns of a subject's row: the id column, then `p_` and `n_` for
      every label in order, a name already present being reused. */
  function NamesFrom(cols: seq<string>, labels: seq<string>, b: nat): seq<string>
    decreases |labels| - b
  {
    if b >= |labels| then cols
    else NamesFrom(AddName(AddName(cols, ProbName(labels[b])), HitsName(labels[b])), labels, b + 1)
  }

  function RegColumns(idCol: string, labels: seq<string>): seq<string> {
    NamesFrom([idCol], labels, 0)
  }

  /** The cells of labels b, b+1, ... written into the subject's row. */
  function BinCells(data: seq<Trend>, subj: int, labels: seq<string>, b: nat, cols: seq<string>, row: seq<Value>)
    : Result<(seq<string>, seq<Value>), PivotError>
    requires |cols| == |row|
    decreases |labels| - b
  {
    if b >= |labels| then Success((cols, row))
    else
      match FirstMatch(data, subj, labels[b])
      case None => Failure(MissingBin(subj, labels[b]))
      case Some(t) =>
        var q := WriteBin(cols, row, labels[b], t);
        BinCells(data, subj, labels, b + 1, q.0, q.1)
  }

  /** The two cells of one label: `p_<label>`, then `n_<label>`. */
  function WriteBin(cols: seq<string>, row: seq<Value>, tag: string, t: Trend): (q: (seq<string>, seq<Value>))
    requires |cols| == |row|
    ensures |q.0| == |q.1| && q.0 == AddName(AddName(cols, ProbName(tag)), HitsName(tag))
  {
    var p := Put(cols, row, ProbName(tag), Num(t.highest));
    Put(p.0, p.1, HitsName(tag), Num(t.hits as real))
  }

  /** A subject's row: its id, then its cells for every label. */
  function SubjectRow(data: seq<Trend>, idCol: string, labels: seq<string>, subj: int)
    : Result<(seq<string>, seq<Value>), PivotError>
  {
    BinCells(data, subj, labels, 0, [idCol], [Num(subj as real)])
  }

  /** The rows of subjects s, s+1, ... */
  function RowsFrom(data: seq<Trend>, idCol: string, labels: seq<string>, pts: seq<int>, s: nat)
    : Result<seq<seq<Value>>, PivotError>
    decreases |pts| - s
  {
    if s >= |pts| then Success([])
    else
      match SubjectRow(data, idCol, labels, pts[s])
      case Failure(e) => Failure(e)
      case Success(cr) =>
        match RowsFrom(data, idCol, labels, pts, s + 1)
        case Failure(e) => Failure(e)
        case Success(rest) => Success([cr.1] + rest)
  }

  /** The frame `gen_regFeats` returns (its column list is the frame's
      columns): empty when there are no records. */
  function RegFeats(data: seq<Trend>, idCol: string, labels: seq<string>): Result<Table, PivotError> {
    var pts := PivotSubjects(data);
    if pts == [] then Success(Table([], []))
    else
      match RowsFrom(data, idCol, labels, pts, 0)
      case Failure(e) => Failure(e)
      case Success(rows) => Success(Table(RegColumns(idCol, labels), rows))
  }

  function PrependRows(acc: seq<seq<Value>>, r: Result<seq<seq<Value>>, PivotError>): Result<seq<seq<Value>>, PivotError> {
    match r
    case Failure(e) => Failure(e)
    case Success(v) => Success(acc + v)
  }

  /** `gen_regFeats`: a row per subject, built cell by cell over the labels,
      the rows concatenated in subject order. */
  method GenRegFeats(data: seq<Trend>, idCol: string, labels: seq<string>) returns (r: Result<Table, PivotError>)
    ensures r == RegFeats(data, idCol, labels)
  {
    var ptList := Unique(TrendIds(data));
    var cols: seq<string> := [];
    var rows: seq<seq<Value>> := [];
    PrependRowsEmpty(RowsFrom(data, idCol, labels, ptList, 0));
    for s := 0 to |ptList|
      invariant PrependRows(rows, RowsFrom(data, idCol, labels, ptList, s)) == RowsFrom(data, idCol, labels, ptList, 0)
      invariant s > 0 ==> cols == RegColumns(idCol, labels)
    {
      var temp := FillSubjectRow(data, idCol, labels, ptList[s]);
      if temp.Failure? {
        return Failure(temp.error);
      }
      PrependRowsStep(rows, temp.value.1, RowsFrom(data, idCol, labels, ptList, s + 1));
      rows := rows + [temp.value.1];
      cols := temp.value.0;
    }
    assert rows + [] == rows;
    if |ptList| == 0 {
      r := Success(Table([], []));
    } else {
      r := Success(Table(cols, rows));
    }
  }

  /** The inner loop of `gen_regFeats`: one subject's row, two cells per
      label; a label with no record for the subject fails. */
  method FillSubjectRow(data: seq<Trend>, idCol: string, labels: seq<string>, subj: int)
    returns (r: Result<(seq<string>, seq<Value>), PivotError>)
    ensures r == SubjectRow(data, idCol, labels, subj)
    ensures r.Success? ==> r.value.0 == RegColumns(idCol, labels)
  {
    var cols, row := [idCol], [Num(subj as real)];
    ghost var goal := BinCells(data, subj, labels, 0, cols, row);
    ghost var names := NamesFrom(cols, labels, 0);
    for b := 0 to |labels|
      invariant |cols| == |row|
      invariant BinCells(data, subj, labels, b, cols, row) == goal
      invariant NamesFrom(cols, labels, b) == names
    {
      var first := FirstMatch(data, subj, labels[b]);
      if first.None? {
        return Failure(MissingBin(subj, labels[b]));
      }
      var written := Put(cols, row, ProbName(labels[b]), Num(first.value.highest));
      cols, row := written.0, written.1;
      written := Put(cols, row, HitsName(labels[b]), Num(first.value.hits as real));
      cols, row := written.0, written.1;
    }
    r := Success((cols, row));
  }

  lemma PrependRowsEmpty(r: Result<seq<seq<Value>>, PivotError>)
    ensures PrependRows([], r) == r
  {
    if r.Success? {
      assert [] + r.value == r.value;
    }
  }

  lemma PrependRowsStep(acc: seq<seq<Value>>, row: seq<Value>, r: Result<seq<seq<Value>>, PivotError>)
    ensures PrependRows(acc + [row], r) == match r case Failure(e) => Failure(e) case Success(v) => Success(acc + ([row] + v))
  {
    if r.Success? {
      assert acc + [row] + r.value == acc + ([row] + r.value);
    }
  }

  // -----------------------------------------------------------------------
  // When the pivot succeeds, and what its cells hold

  predicate HasRecord(data: seq<Trend>, id: int, tag: string) {
    exists i :: 0 <= i < |data| && data[i].id == id && data[i].interval == tag
  }

  lemma HasRecordFirstMatch(data: seq<Trend>, id: int, tag: string)
    ensures HasRecord(data, id, tag) <==> FirstMatch(data, id, tag).Some?
  {
  }

  /** The subject has a record for every label from b on. */
  predicate RecordedFrom(data: seq<Trend>, subj: int, labels: seq<string>, b: nat) {
    forall b' :: b <= b' < |labels| ==> HasRecord(data, subj, labels[b'])
  }

  lemma RecordedFromStep(data: seq<Trend>, subj: int, labels: seq<string>, b: nat)
    requires b < |labels|
    ensures RecordedFrom(data, subj, labels, b) <==>
      HasRecord(data, subj, labels[b]) && RecordedFrom(data, subj, labels, b + 1)
  {
  }

  lemma {:induction false} BinCellsSuccess(data: seq<Trend>, subj: int, labels: seq<string>, b: nat, cols: seq<string>, row: seq<Value>)
    requires |cols| == |row|
    ensures BinCells(data, subj, labels, b, cols, row).Success? <==> RecordedFrom(data, subj, labels, b)
    decreases |labels| - b
  {
    if b < |labels| {
      var m := FirstMatch(data, subj, labels[b]);
      HasRecordFirstMatch(data, subj, labels[b]);
      RecordedFromStep(data, subj, labels, b);
      if m.Some? {
        var q := WriteBin(cols, row, labels[b], m.value);
        assert BinCells(data, subj, labels, b, cols, row) == BinCells(data, subj, labels, b + 1, q.0, q.1);
        BinCellsSuccess(data, subj, labels, b + 1, q.0, q.1);
      } else {
        assert BinCells(data, subj, labels, b, cols, row).Failure?;
      }
    }
  }

  lemma RowsFromStep(data: seq<Trend>, idCol: string, labels: seq<string>, pts: seq<int>, s: nat)
    requires s < |pts|
    ensures RowsFrom(data, idCol, labels, pts, s).Success? <==>
      SubjectRow(data, idCol, labels, pts[s]).Success? && RowsFrom(data, idCol, labels, pts, s + 1).Success?
    ensures RowsFrom(data, idCol, labels, pts, s).Success? ==>
      RowsFrom(data, idCol, labels, pts, s).value ==
      [SubjectRow(data, idCol, labels, pts[s]).value.1] + RowsFrom(data, idCol, labels, pts, s + 1).value
  {
  }

  /** Every subject from s on has a record for every label. */
  predicate AllRecorded(data: seq<Trend>, labels: seq<string>, pts: seq<int>, s: nat) {
    forall k, b :: s <= k < |pts| && 0 <= b < |labels| ==> HasRecord(data, pts[k], labels[b])
  }

  predicate SubjectRecorded(data: seq<Trend>, labels: seq<string>, subj: int) {
    RecordedFrom(data, subj, labels, 0)
  }

  lemma AllRecordedStep(data: seq<Trend>, labels: seq<string>, pts: seq<int>, s: nat)
    requires s < |pts|
    ensures AllRecorded(data, labels, pts, s) <==> SubjectRecorded(data, labels, pts[s]) && AllRecorded(data, labels, pts, s + 1)
  {
  }

  lemma {:induction false} RowsFromSuccess(data: seq<Trend>, idCol: string, labels: seq<string>, pts: seq<int>, s: nat)
    ensures RowsFrom(data, idCol, labels, pts, s).Success? <==> AllRecorded(data, labels, pts, s)
    decreases |pts| - s
  {
    if s < |pts| {
      RowsFromStep(data, idCol, labels, pts, s);
      BinCellsSuccess(data, pts[s], labels, 0, [idCol], [Num(pts[s] as real)]);
      assert SubjectRow(data, idCol, labels, pts[s]).Success? <==> SubjectRecorded(data, labels, pts[s]);
      RowsFromSuccess(data, idCol, labels, pts, s + 1);
      AllRecordedStep(data, labels, pts, s);
    }
  }

  /** The pivot fails exactly when some subject has no record for some
      label. */
  lemma RegFeatsSuccess(data: seq<Trend>, idCol: string, labels: seq<string>)
    ensures RegFeats(data, idCol, labels).Success? <==> AllRecorded(data, labels, PivotSubjects(data), 0)
  {
    RowsFromSuccess(data, idCol, labels, PivotSubjects(data), 0);
  }

  /** No label from b on writes this column. */
  predicate NotWritten(c: string, labels: seq<string>, b: nat) {
    forall b' :: b <= b' < |labels| ==> c != ProbName(labels[b']) && c != HitsName(labels[b'])
  }

  lemma NamesApart(x: string, y: string)
    ensures ProbName(x) != HitsName(y)
    ensures ProbName(x) == ProbName(y) ==> x == y
    ensures HitsName(x) == HitsName(y) ==> x == y
  {
    assert ProbName(x)[0] == 'p' && HitsName(y)[0] == 'n';
    assert ProbName(x)[2..] == x && ProbName(y)[2..] == y;
    assert HitsName(x)[2..] == x && HitsName(y)[2..] == y;
  }

  /** A column neither of a label's two names touches keeps its place and
      value. */
  lemma WriteBinKeeps(cols: seq<string>, row: seq<Value>, tag: string, t: Trend, c: string)
    requires |cols| == |row| && c in cols && c != ProbName(tag) && c != HitsName(tag)
    ensures var q := WriteBin(cols, row, tag, t);
      c in q.0 && RowCell(q.0, q.1, c) == RowCell(cols, row, c)
  {
    var p := Put(cols, row, ProbName(tag), Num(t.highest));
    PutOthers(cols, row, ProbName(tag), Num(t.highest), c);
    PutOthers(p.0, p.1, HitsName(tag), Num(t.hits as real), c);
  }

  /** After a label's write its two cells hold the record's values. */
  lemma WriteBinHere(cols: seq<string>, row: seq<Value>, tag: string, t: Trend)
    requires |cols| == |row|
    ensures var q := WriteBin(cols, row, tag, t);
      && RowCell(q.0, q.1, ProbName(tag)) == Num(t.highest)
      && RowCell(q.0, q.1, HitsName(tag)) == Num(t.hits as real)
  {
    var p := Put(cols, row, ProbName(tag), Num(t.highest));
    PutHere(cols, row, ProbName(tag), Num(t.highest));
    NamesApart(tag, tag);
    PutOthers(p.0, p.1, HitsName(tag), Num(t.hits as real), ProbName(tag));
    PutHere(p.0, p.1, HitsName(tag), Num(t.hits as real));
  }

  /** The cells of labels 0 .. b-1 hold the values of the first record of
      the subject with that label. */
  predicate CellsHold(data: seq<Trend>, subj: int, labels: seq<string>, b: nat, cols: seq<string>, row: seq<Value>)
    requires |cols| == |row|
  {
    forall b' :: 0 <= b' < b && b' < |labels| ==>
      && FirstMatch(data, subj, labels[b']).Some?
      && ProbName(labels[b']) in cols && HitsName(labels[b']) in cols
      && RowCell(cols, row, ProbName(labels[b'])) == Num(FirstMatch(data, subj, labels[b']).value.highest)
      && RowCell(cols, row, HitsName(labels[b'])) == Num(FirstMatch(data, subj, labels[b']).value.hits as real)
  }

  lemma WriteBinHolds(data: seq<Trend>, subj: int, labels: seq<string>, b: nat, cols: seq<string>, row: seq<Value>)
    requires |cols| == |row| && b < |labels| && FirstMatch(data, subj, labels[b]).Some?
    requires CellsHold(data, subj, labels, b, cols, row)
    ensures var q := WriteBin(cols, row, labels[b], FirstMatch(data, subj, labels[b]).value);
      CellsHold(data, subj, labels, b + 1, q.0, q.1)
  {
    var t := FirstMatch(data, subj, labels[b]).value;
    var q := WriteBin(cols, row, labels[b], t);
    WriteBinHere(cols, row, labels[b], t);
    forall b' | 0 <= b' < b
      ensures ProbName(labels[b']) in q.0 && HitsName(labels[b']) in q.0
      ensures RowCell(q.0, q.1, ProbName(labels[b'])) == Num(FirstMatch(data, subj, labels[b']).value.highest)
      ensures RowCell(q.0, q.1, HitsName(labels[b'])) == Num(FirstMatch(data, subj, labels[b']).value.hits as real)
    {
      if labels[b'] != labels[b] {
        NamesApart(labels[b'], labels[b]);
        NamesApart(labels[b], labels[b']);
        WriteBinKeeps(cols, row, labels[b], t, ProbName(labels[b']));
        WriteBinKeeps(cols, row, labels[b], t, HitsName(labels[b']));
      }
    }
  }

  /** Writing the labels from b on keeps the cells of the labels before b
      right and makes the cells of the labels from b on right; a column no
      label from b on writes keeps its value. */
  lemma {:induction false} BinCellsHold(data: seq<Trend>, subj: int, labels: seq<string>, b: nat, cols: seq<string>, row: seq<Value>,
                                        r: (seq<string>, seq<Value>))
    requires |cols| == |row| && CellsHold(data, subj, labels, b, cols, row)
    requires BinCells(data, subj, labels, b, cols, row) == Success(r)
    ensures |r.0| == |r.1| && r.0 == NamesFrom(cols, labels, b)
    ensures CellsHold(data, subj, labels, |labels|, r.0, r.1)
    ensures forall c :: c in cols && NotWritten(c, labels, b) ==> c in r.0 && RowCell(r.0, r.1, c) == RowCell(cols, row, c)
    decreases |labels| - b
  {
    if b < |labels| {
      var t := FirstMatch(data, subj, labels[b]).value;
      var q := WriteBin(cols, row, labels[b], t);
      WriteBinHolds(data, subj, labels, b, cols, row);
      BinCellsHold(data, subj, labels, b + 1, q.0, q.1, r);
      forall c | c in cols && NotWritten(c, labels, b)
        ensures c in r.0 && RowCell(r.0, r.1, c) == RowCell(cols, row, c)
      {
        WriteBinKeeps(cols, row, labels[b], t, c);
      }
    }
  }

  // -----------------------------------------------------------------------
  // The table the pivot returns

  lemma {:induction false} RowsFromLength(data: seq<Trend>, idCol: string, labels: seq<string>, pts: seq<int>, s: nat, rows: seq<seq<Value>>)
    requires s <= |pts| && RowsFrom(data, idCol, labels, pts, s) == Success(rows)
    ensures |rows| == |pts| - s
    decreases |pts| - s
  {
    if s < |pts| {
      RowsFromStep(data, idCol, labels, pts, s);
      RowsFromLength(data, idCol, labels, pts, s + 1, rows[1..]);
    }
  }

  lemma {:induction false} RowsFromAt(data: seq<Trend>, idCol: string, labels: seq<string>, pts: seq<int>, s: nat, rows: seq<seq<Value>>, k: nat)
    requires s <= k < |pts| && RowsFrom(data, idCol, labels, pts, s) == Success(rows)
    ensures SubjectRow(data, idCol, labels, pts[k]).Success?
    ensures k - s < |rows| && rows[k - s] == SubjectRow(data, idCol, labels, pts[k]).value.1
    decreases k - s
  {
    RowsFromStep(data, idCol, labels, pts, s);
    if s < k {
      RowsFromAt(data, idCol, labels, pts, s + 1, rows[1..], k);
    }
  }

  /** A subject's row has the pivot's columns, holds the subject's id under
      the id column (when no feature is named like it), and under `p_<label>`
      and `n_<label>` the first record of the subject with that label. */
  lemma SubjectRowCells(data: seq<Trend>, idCol: string, labels: seq<string>, subj: int)
    requires SubjectRow(data, idCol, labels, subj).Success?
    ensures var r := SubjectRow(data, idCol, labels, subj).value;
      && |r.0| == |r.1| && r.0 == RegColumns(idCol, labels)
      && CellsHold(data, subj, labels, |labels|, r.0, r.1)
      && (NotWritten(idCol, labels, 0) ==> idCol in r.0 && RowCell(r.0, r.1, idCol) == Num(subj as real))
  {
    var r := SubjectRow(data, idCol, labels, subj).value;
    BinCellsHold(data, subj, labels, 0, [idCol], [Num(subj as real)], r);
  }

  /** On success the pivot is a well-formed table with one row per subject,
      in ascending id, under the columns `RegColumns`. */
  lemma RegFeatsShape(data: seq<Trend>, idCol: string, labels: seq<string>)
    requires RegFeats(data, idCol, labels).Success? && PivotSubjects(data) != []
    ensures var t := RegFeats(data, idCol, labels).value;
      WellFormed(t) && |t.rows| == |PivotSubjects(data)| && t.columns == RegColumns(idCol, labels)
  {
    var pts := PivotSubjects(data);
    var rows := RowsFrom(data, idCol, labels, pts, 0).value;
    RowsFromLength(data, idCol, labels, pts, 0, rows);
    forall j | 0 <= j < |pts|
      ensures |rows[j]| == |RegColumns(idCol, labels)|
    {
      RowsFromAt(data, idCol, labels, pts, 0, rows, j);
      SubjectRowWidth(data, idCol, labels, pts[j]);
    }
    assert RegFeats(data, idCol, labels).value == Table(RegColumns(idCol, labels), rows);
  }

  lemma SubjectRowWidth(data: seq<Trend>, idCol: string, labels: seq<string>, subj: int)
    requires SubjectRow(data, idCol, labels, subj).Success?
    ensures |SubjectRow(data, idCol, labels, subj).value.1| == |RegColumns(idCol, labels)|
  {
    SubjectRowCells(data, idCol, labels, subj);
  }

  /** The cell of subject k under `p_<label>` is the highest probability, and
      under `n_<label>` the number of hits, of the first record of that
      subject with that label; the id column holds the subject's id. */
  lemma RegFeatsCells(data: seq<Trend>, idCol: string, labels: seq<string>, k: nat, b: nat)
    requires RegFeats(data, idCol, labels).Success?
    requires k < |PivotSubjects(data)| && b < |labels|
    ensures var t := RegFeats(data, idCol, labels).value;
      WellFormed(t) && k < |t.rows|
    ensures var t := RegFeats(data, idCol, labels).value;
      var pts := PivotSubjects(data);
      && FirstMatch(data, pts[k], labels[b]).Some?
      && ProbName(labels[b]) in t.columns && HitsName(labels[b]) in t.columns
      && Cell(t, k, ProbName(labels[b])) == Num(FirstMatch(data, pts[k], labels[b]).value.highest)
      && Cell(t, k, HitsName(labels[b])) == Num(FirstMatch(data, pts[k], labels[b]).value.hits as real)
      && (NotWritten(idCol, labels, 0) ==> idCol in t.columns && Cell(t, k, idCol) == Num(pts[k] as real))
  {
    var pts := PivotSubjects(data);
    var rows := RowsFrom(data, idCol, labels, pts, 0).value;
    RegFeatsShape(data, idCol, labels);
    RowsFromAt(data, idCol, labels, pts, 0, rows, k);
    SubjectRowCells(data, idCol, labels, pts[k]);
  }

  /** With no records the pivot is the empty frame. */
  lemma RegFeatsEmpty(data: seq<Trend>, idCol: string, labels: seq<string>)
    requires data == []
    ensures RegFeats(data, idCol, labels) == Success(Table([], []))
  {
  }

  // -----------------------------------------------------------------------
  // The column list: the id column, then `p_` and `n_` of every label

  function FeatureNames(labels: seq<string>): (r: seq<string>)
    ensures |r| == 2 * |labels|
  {
    if labels == [] then [] else [ProbName(labels[0]), HitsName(labels[0])] + FeatureNames(labels[1..])
  }

  predicate DistinctLabels(labels: seq<string>) {
    forall i, j :: 0 <= i < j < |labels| ==> labels[i] != labels[j]
  }

  predicate FreshFrom(cols: seq<string>, labels: seq<string>, b: nat) {
    forall b' :: b <= b' < |labels| ==> ProbName(labels[b']) !in cols && HitsName(labels[b']) !in cols
  }

  lemma FreshStep(cols: seq<string>, labels: seq<string>, b: nat)
    requires b < |labels| && DistinctLabels(labels) && FreshFrom(cols, labels, b)
    ensures var next := cols + [ProbName(labels[b]), HitsName(labels[b])];
      AddName(AddName(cols, ProbName(labels[b])), HitsName(labels[b])) == next && FreshFrom(next, labels, b + 1)
  {
    var next := cols + [ProbName(labels[b]), HitsName(labels[b])];
    NamesApart(labels[b], labels[b]);
    assert AddName(cols, ProbName(labels[b])) == cols + [ProbName(labels[b])];
    forall b' | b + 1 <= b' < |labels|
      ensures ProbName(labels[b']) !in next && HitsName(labels[b']) !in next
    {
      NamesApart(labels[b'], labels[b]);
      NamesApart(labels[b], labels[b']);
    }
  }

  lemma {:induction false} NamesFromFresh(cols: seq<string>, labels: seq<string>, b: nat)
    requires b <= |labels| && DistinctLabels(labels) && FreshFrom(cols, labels, b)
    ensures NamesFrom(cols, labels, b) == cols + FeatureNames(labels[b..])
    decreases |labels| - b
  {
    if b < |labels| {
      var next := cols + [ProbName(labels[b]), HitsName(labels[b])];
      FreshStep(cols, labels, b);
      NamesFromFresh(next, labels, b + 1);
      assert labels[b..][1..] == labels[b + 1..];
      assert FeatureNames(labels[b..]) == [ProbName(labels[b]), HitsName(labels[b])] + FeatureNames(labels[b + 1..]);
    } else {
      assert labels[b..] == [];
    }
  }

  /** With distinct labels and an id column named unlike any feature, the
      pivot's columns are the id column followed by `p_<label>`, `n_<label>`
      for every label in order; `cols[1:]`, what the classifier is given, is
      the feature list. */
  lemma RegColumnsLayout(idCol: string, labels: seq<string>)
    requires DistinctLabels(labels) && NotWritten(idCol, labels, 0)
    ensures RegColumns(idCol, labels) == [idCol] + FeatureNames(labels)
    ensures |RegColumns(idCol, labels)| == 1 + 2 * |labels|
  {
    NamesFromFresh([idCol], labels, 0);
    assert labels[0..] == labels;
  }

  // -----------------------------------------------------------------------
  // The pivot of the aggregation's output

  lemma Split(j: nat, n: nat, count: nat) returns (q: nat, r: nat)
    requires j < count * n
    ensures q < count && r < n && q * n + r == j
  {
    q, r := j / n, j % n;
    if q >= count {
      assert q * n >= count * n by {
        MulMonotone(count, q, n);
      }
    }
  }

  lemma MulNonneg(a: nat, n: nat)
    ensures a * n >= 0
  {
  }

  lemma MulMonotone(a: nat, b: nat, n: nat)
    requires a <= b
    ensures a * n <= b * n
  {
  }

  lemma {:induction false} FirstMatchAt(data: seq<Trend>, id: int, tag: string, i: nat)
    requires i < |data| && data[i].id == id && data[i].interval == tag
    requires forall j :: 0 <= j < i ==> !(data[j].id == id && data[j].interval == tag)
    ensures FirstMatch(data, id, tag) == Some(data[i])
  {
    if i > 0 {
      assert forall j :: 0 <= j < i - 1 ==> data[1..][j] == data[j + 1];
      FirstMatchAt(data[1..], id, tag, i - 1);
    }
  }

  /** The record at position j of the aggregation's output belongs to the
      subject and the label it is the q * |subjects| + r-th record of. */
  lemma TrendOwner(scores: seq<ScoreRow>, anchors: map<int, Date>, starts: seq<int>, ends: seq<int>,
                   labels: seq<string>, T: seq<Trend>, j: nat) returns (q: nat, r: nat)
    requires ValidAnchors(anchors) && TimeTrends(scores, anchors, starts, ends, labels) == Success(T)
    requires j < |T|
    ensures q < |labels| && r < |Subjects(scores)| && q * |Subjects(scores)| + r == j
    ensures T[j].id == Subjects(scores)[r]
    ensures T[j].interval == labels[q]
  {
    var n := |Subjects(scores)|;
    TimeTrendsLength(scores, anchors, starts, ends, labels, T);
    q, r := Split(j, n, |labels|);
    TimeTrendsAt(scores, anchors, starts, ends, labels, T, q, r);
  }

  /** Pivoting the aggregation's records gives back the subjects of the
      score table (when there is at least one bin). */
  lemma TrendsPivotSubjects(scores: seq<ScoreRow>, anchors: map<int, Date>, starts: seq<int>, ends: seq<int>,
                            labels: seq<string>, T: seq<Trend>)
    requires ValidAnchors(anchors) && TimeTrends(scores, anchors, starts, ends, labels) == Success(T)
    requires |labels| > 0
    ensures PivotSubjects(T) == Subjects(scores)
  {
    var pts := Subjects(scores);
    forall y ensures y in TrendIds(T) <==> y in pts {
      if y in TrendIds(T) {
        var j :| 0 <= j < |T| && TrendIds(T)[j] == y;
        var q, r := TrendOwner(scores, anchors, starts, ends, labels, T, j);
        assert pts[r] in pts;
      }
      if y in pts {
        var r :| 0 <= r < |pts| && pts[r] == y;
        TimeTrendsAt(scores, anchors, starts, ends, labels, T, 0, r);
        assert TrendIds(T)[0 * |pts| + r] == y;
      }
    }
    StrictlyIncreasingUnique(PivotSubjects(T), pts);
  }

  lemma BlockOrder(j: nat, n: nat, b: nat, s: nat, q: nat, r: nat)
    requires q * n + r == j && j < b * n + s && q == b
    ensures r < s
  {
  }

  /** With distinct labels, no record before i = b * |subjects| + s belongs
      to subject s and label b. */
  lemma NotEarlier(scores: seq<ScoreRow>, anchors: map<int, Date>, starts: seq<int>, ends: seq<int>,
                   labels: seq<string>, T: seq<Trend>, b: nat, s: nat, i: nat, j: nat)
    requires ValidAnchors(anchors) && TimeTrends(scores, anchors, starts, ends, labels) == Success(T)
    requires DistinctLabels(labels) && b < |labels| && s < |Subjects(scores)|
    requires i == b * |Subjects(scores)| + s && j < i && i <= |T|
    ensures !(T[j].id == Subjects(scores)[s] && T[j].interval == labels[b])
  {
    var pts := Subjects(scores);
    var n := |pts|;
    var q, r := TrendOwner(scores, anchors, starts, ends, labels, T, j);
    if q == b {
      BlockOrder(j, n, b, s, q, r);
      assert pts[r] < pts[s];
    } else {
      assert labels[q] != labels[b];
    }
  }

  /** With distinct labels, the first record of subject s with label b in
      the aggregation's output is the one at b * |subjects| + s. */
  lemma TrendsFirstMatch(scores: seq<ScoreRow>, anchors: map<int, Date>, starts: seq<int>, ends: seq<int>,
                         labels: seq<string>, T: seq<Trend>, b: nat, s: nat)
    requires ValidAnchors(anchors) && TimeTrends(scores, anchors, starts, ends, labels) == Success(T)
    requires DistinctLabels(labels) && b < |labels| && s < |Subjects(scores)|
    ensures b * |Subjects(scores)| + s < |T|
    ensures FirstMatch(T, Subjects(scores)[s], labels[b]) == Some(T[b * |Subjects(scores)| + s])
  {
    var pts := Subjects(scores);
    MulNonneg(b, |pts|);
    var i := b * |pts| + s;
    TimeTrendsAt(scores, anchors, starts, ends, labels, T, b, s);
    assert i < |T|;
    var id, tag := pts[s], labels[b];
    assert T[i].id == id && T[i].interval == tag;
    forall j | 0 <= j < i
      ensures !(T[j].id == id && T[j].interval == tag)
    {
      NotEarlier(scores, anchors, starts, ends, labels, T, b, s, i, j);
    }
    FirstMatchAt(T, id, tag, i);
  }

  /** With distinct labels the pivot of the aggregation's output never
      fails: every subject has a record for every label. */
  lemma TrendsRegFeatsSucceed(scores: seq<ScoreRow>, anchors: map<int, Date>, starts: seq<int>, ends: seq<int>,
                              labels: seq<string>, T: seq<Trend>, idCol: string)
    requires ValidAnchors(anchors) && TimeTrends(scores, anchors, starts, ends, labels) == Success(T)
    requires DistinctLabels(labels)
    ensures RegFeats(T, idCol, labels).Success?
  {
    if |labels| > 0 {
      TrendsPivotSubjects(scores, anchors, starts, ends, labels, T);
      var pts := Subjects(scores);
      forall k, b | 0 <= k < |pts| && 0 <= b < |labels|
        ensures HasRecord(T, pts[k], labels[b])
      {
        TrendsFirstMatch(scores, anchors, starts, ends, labels, T, b, k);
      }
    }
    RegFeatsSuccess(T, idCol, labels);
  }

  /** The patient-level features: with distinct labels, the pivot of the
      aggregation's output has, for the k-th subject of the score table, the
      subject's id and, under `p_<label>` and `n_<label>`, the highest
      probability and the number of hits of the subject's events in that
      label's window. */
  lemma TrendsRegFeatsCell(scores: seq<ScoreRow>, anchors: map<int, Date>, starts: seq<int>, ends: seq<int>,
                           labels: seq<string>, T: seq<Trend>, idCol: string, k: nat, b: nat)
    requires ValidAnchors(anchors) && TimeTrends(scores, anchors, starts, ends, labels) == Success(T)
    requires DistinctLabels(labels) && k < |Subjects(scores)| && b < |labels|
    ensures RegFeats(T, idCol, labels).Success?
    ensures b < |starts| && b < |ends| && WindowAt(starts, ends, labels, b).Some?
    ensures var t := RegFeats(T, idCol, labels).value;
      var a := Aggregate(scores, anchors, WindowAt(starts, ends, labels, b).value, b, labels[b], Subjects(scores)[k]);
      && WellFormed(t) && |t.rows| == |Subjects(scores)| && t.columns == RegColumns(idCol, labels)
      && ProbName(labels[b]) in t.columns && HitsName(labels[b]) in t.columns
      && Cell(t, k, ProbName(labels[b])) == Num(a.highest)
      && Cell(t, k, HitsName(labels[b])) == Num(a.hits as real)
      && (NotWritten(idCol, labels, 0) ==> idCol in t.columns && Cell(t, k, idCol) == Num(Subjects(scores)[k] as real))
  {
    TrendsRegFeatsSucceed(scores, anchors, starts, ends, labels, T, idCol);
    TrendsPivotSubjects(scores, anchors, starts, ends, labels, T);
    TrendsFirstMatch(scores, anchors, starts, ends, labels, T, b, k);
    TimeTrendsAt(scores, anchors, starts, ends, labels, T, b, k);
    RegFeatsShape(T, idCol, labels);
    RegFeatsCells(T, idCol, labels, k, b);
  }
}
