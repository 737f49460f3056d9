/** Feature tables (pandas DataFrames reduced to named columns and rows of
    cells) and the schema operations the three scoring stages apply to them:
    `fillna`, dropping duplicated column names, dropping columns, and aligning
    a live table to a classifier's training columns. */
module Frames {

  import opened Wrappers
  import opened Dates

  /** One cell: a number, a parsed date, or a missing value (NaN / NaT). */
  datatype Value = Num(x: real) | Day(d: Date) | NA

  /** The 0 that pandas writes for `fillna(0)` and for `X[c] = 0`. */
  const Zero: Value := Num(0.0)

  datatype Table = Table(columns: seq<string>, rows: seq<seq<Value>>)

  /** Every row has one cell per column. */
  predicate WellFormed(t: Table) {
    forall k :: 0 <= k < |t.rows| ==> |t.rows[k]| == |t.columns|
  }

  /** The position of the first column with this name (what a name lookup
      finds once duplicated names are gone). */
  function IndexOf(cols: seq<string>, name: string): (i: nat)
    requires name in cols
    ensures i < |cols| && cols[i] == name && name !in cols[..i]
  {
    if cols[0] == name then 0
    else
      var i := 1 + IndexOf(cols[1..], name);
      assert cols[..i] == [cols[0]] + cols[1..][..i - 1];
      i
  }

  lemma {:induction false} IndexOfAppend(cols: seq<string>, extra: string, name: string)
    requires name in cols
    ensures IndexOf(cols + [extra], name) == IndexOf(cols, name)
  {
    if cols[0] != name {
      assert (cols + [extra])[1..] == cols[1..] + [extra];
      IndexOfAppend(cols[1..], extra, name);
    }
  }

  /** The cell of row k under the named column. */
  function Cell(t: Table, k: nat, name: string): Value
    requires WellFormed(t) && k < |t.rows| && name in t.columns
  {
    t.rows[k][IndexOf(t.columns, name)]
  }

  // ---------------------------------------------------------------------
  // Column operations

  /** `t.fillna(v)`: every missing cell becomes v. */
  function FillNA(t: Table, v: Value): (r: Table)
    requires WellFormed(t)
    ensures WellFormed(r) && r.columns == t.columns && |r.rows| == |t.rows|
    ensures forall k, j :: 0 <= k < |t.rows| && 0 <= j < |t.columns| ==>
      r.rows[k][j] == (if t.rows[k][j] == NA then v else t.rows[k][j])
  {
    Table(t.columns, seq(|t.rows|, k requires 0 <= k < |t.rows| =>
      seq(|t.rows[k]|, j requires 0 <= j < |t.rows[k]| => if t.rows[k][j] == NA then v else t.rows[k][j])))
  }

  /** After `fillna(v)` with a present value nothing is missing any more,
      so filling again changes nothing. */
  lemma FillNAComplete(t: Table, v: Value)
    requires WellFormed(t) && v != NA
    ensures var r := FillNA(t, v);
      (forall k, j :: 0 <= k < |r.rows| && 0 <= j < |r.columns| ==> r.rows[k][j] != NA)
      && FillNA(r, v) == r
  {
    var r := FillNA(t, v);
    var rr := FillNA(r, v);
    forall k | 0 <= k < |r.rows|
      ensures rr.rows[k] == r.rows[k]
    {
      assert |rr.rows[k]| == |r.rows[k]|;
    }
  }

  /** The positions below n that satisfy keep, ascending. */
  function PositionsWhere(n: nat, keep: nat -> bool): (r: seq<nat>)
    ensures forall i :: 0 <= i < |r| ==> r[i] < n && keep(r[i])
    ensures forall i, j :: 0 <= i < j < |r| ==> r[i] < r[j]
    ensures forall j :: 0 <= j < n && keep(j) ==> j in r
  {
    if n == 0 then [] else PositionsWhere(n - 1, keep) + (if keep(n - 1) then [n - 1] else [])
  }

  /** The sub-table made of the columns at the given positions, in that order. */
  function Project(t: Table, ps: seq<nat>): (r: Table)
    requires WellFormed(t)
    requires forall i :: 0 <= i < |ps| ==> ps[i] < |t.columns|
    ensures WellFormed(r) && |r.columns| == |ps| && |r.rows| == |t.rows|
    ensures forall i :: 0 <= i < |ps| ==> r.columns[i] == t.columns[ps[i]]
    ensures forall k, i :: 0 <= k < |t.rows| && 0 <= i < |ps| ==> r.rows[k][i] == t.rows[k][ps[i]]
  {
    Table(seq(|ps|, i requires 0 <= i < |ps| => t.columns[ps[i]]),
          seq(|t.rows|, k requires 0 <= k < |t.rows| =>
            seq(|ps|, i requires 0 <= i < |ps| => t.rows[k][ps[i]])))
  }

  predicate IsFirstOccurrence(cols: seq<string>, j: nat) {
    j < |cols| && cols[j] !in cols[..j]
  }

  /** The positions of the first occurrence of each column name. */
  function FirstOccurrences(cols: seq<string>): seq<nat> {
    PositionsWhere(|cols|, (j: nat) => IsFirstOccurrence(cols, j))
  }

  /** `t.loc[:, ~t.columns.duplicated()]`: of any repeated column name, only
      the first column is kept. */
  function DropDuplicatedColumns(t: Table): (r: Table)
    requires WellFormed(t)
    ensures WellFormed(r) && |r.rows| == |t.rows|
  {
    Project(t, FirstOccurrences(t.columns))
  }

  /** After dropping duplicated names every name appears once, every name of
      the input is still there, and it carries the values of its first column. */
  lemma DropDuplicatedColumnsSpec(t: Table)
    requires WellFormed(t)
    ensures var r := DropDuplicatedColumns(t);
      && (forall i, j :: 0 <= i < j < |r.columns| ==> r.columns[i] != r.columns[j])
      && (forall c :: c in t.columns <==> c in r.columns)
      && (forall k, c :: 0 <= k < |t.rows| && c in t.columns ==> Cell(r, k, c) == Cell(t, k, c))
  {
    var ps := FirstOccurrences(t.columns);
    var r := DropDuplicatedColumns(t);
    forall i, j | 0 <= i < j < |r.columns|
      ensures r.columns[i] != r.columns[j]
    {
      assert ps[i] < ps[j];
      assert t.columns[..ps[j]][ps[i]] == t.columns[ps[i]];
    }
    forall c | c in t.columns
      ensures c in r.columns && IndexOf(t.columns, c) in ps
    {
      var j := IndexOf(t.columns, c);
      assert IsFirstOccurrence(t.columns, j);
      assert j in ps;
      var i :| 0 <= i < |ps| && ps[i] == j;
      assert r.columns[i] == c;
    }
    forall k, c | 0 <= k < |t.rows| && c in t.columns
      ensures Cell(r, k, c) == Cell(t, k, c)
    {
      var j := IndexOf(t.columns, c);
      var i :| 0 <= i < |ps| && ps[i] == j;
      assert r.columns[i] == c;
      assert IndexOf(r.columns, c) == i;
    }
  }

  datatype SchemaError = MissingColumn(name: string)

  /** The first listed name that is not among the columns, if any. */
  function FirstMissing(names: seq<string>, cols: seq<string>): (r: Option<string>)
    ensures r.None? <==> forall n :: n in names ==> n in cols
    ensures r.Some? ==> r.value in names && r.value !in cols
  {
    if names == [] then None
    else if names[0] !in cols then Some(names[0])
    else FirstMissing(names[1..], cols)
  }

  predicate NotListed(cols: seq<string>, names: seq<string>, j: nat) {
    j < |cols| && cols[j] !in names
  }

  /** The columns a drop keeps: those whose name is not listed. */
  function KeptColumns(cols: seq<string>, names: seq<string>): (ps: seq<nat>)
    ensures forall i :: 0 <= i < |ps| ==> ps[i] < |cols| && cols[ps[i]] !in names
    ensures forall i, j :: 0 <= i < j < |ps| ==> ps[i] < ps[j]
    ensures forall j :: 0 <= j < |cols| && cols[j] !in names ==> j in ps
  {
    var keep := (j: nat) => NotListed(cols, names, j);
    var ps := PositionsWhere(|cols|, keep);
    assert forall j :: 0 <= j < |cols| && cols[j] !in names ==> keep(j);
    ps
  }

  /** `t.drop(columns=names)`: fails if a listed name is not a column;
      otherwise removes every column whose name is listed. */
  function DropColumns(t: Table, names: seq<string>): (r: Result<Table, SchemaError>)
    requires WellFormed(t)
    ensures r.Success? <==> forall n :: n in names ==> n in t.columns
    ensures r.Success? ==> WellFormed(r.value) && |r.value.rows| == |t.rows|
    ensures r.Success? ==> forall c :: c in r.value.columns <==> c in t.columns && c !in names
  {
    match FirstMissing(names, t.columns)
    case Some(n) => Failure(MissingColumn(n))
    case None =>
      var ps := KeptColumns(t.columns, names);
      var r := Project(t, ps);
      assert forall c :: c in r.columns <==> c in t.columns && c !in names by {
        forall c | c in t.columns && c !in names ensures c in r.columns {
          var j :| 0 <= j < |t.columns| && t.columns[j] == c;
          var i :| 0 <= i < |ps| && ps[i] == j;
          assert r.columns[i] == c;
        }
      }
      Success(r)
  }

  /** No column name appears twice. */
  predicate DistinctNames(cols: seq<string>) {
    forall i, j :: 0 <= i < j < |cols| ==> cols[i] != cols[j]
  }

  lemma IndexOfDistinct(cols: seq<string>, i: nat)
    requires DistinctNames(cols) && i < |cols|
    ensures IndexOf(cols, cols[i]) == i
  {
  }

  /** Dropping columns from a table without repeated names keeps the other
      columns' values and repeats no name. */
  lemma DropColumnsCells(t: Table, names: seq<string>)
    requires WellFormed(t) && DistinctNames(t.columns) && DropColumns(t, names).Success?
    ensures var r := DropColumns(t, names).value;
      && DistinctNames(r.columns)
      && forall k, c :: 0 <= k < |t.rows| && c in r.columns ==> c in t.columns && Cell(r, k, c) == Cell(t, k, c)
  {
    var ps := KeptColumns(t.columns, names);
    var r := DropColumns(t, names).value;
    assert r == Project(t, ps);
    forall i, j | 0 <= i < j < |r.columns|
      ensures r.columns[i] != r.columns[j]
    {
      assert ps[i] < ps[j];
    }
    forall k, c | 0 <= k < |t.rows| && c in r.columns
      ensures c in t.columns && Cell(r, k, c) == Cell(t, k, c)
    {
      var i := IndexOf(r.columns, c);
      assert t.columns[ps[i]] == c;
      IndexOfDistinct(t.columns, ps[i]);
    }
  }

  /** `t[c] = v` for a name c that is not yet a column: appends a constant column. */
  function AddColumn(t: Table, c: string, v: Value): (r: Table)
    requires WellFormed(t)
    ensures WellFormed(r) && r.columns == t.columns + [c] && |r.rows| == |t.rows|
    ensures forall k :: 0 <= k < |t.rows| ==> r.rows[k] == t.rows[k] + [v]
  {
    Table(t.columns + [c], seq(|t.rows|, k requires 0 <= k < |t.rows| => t.rows[k] + [v]))
  }

  /** `t[names]`: the named columns, in the order listed. */
  function Select(t: Table, names: seq<string>): (r: Table)
    requires WellFormed(t)
    requires forall n :: n in names ==> n in t.columns
    ensures WellFormed(r) && r.columns == names && |r.rows| == |t.rows|
    ensures forall k, j :: 0 <= k < |t.rows| && 0 <= j < |names| ==> r.rows[k][j] == Cell(t, k, names[j])
  {
    Table(names, seq(|t.rows|, k requires 0 <= k < |t.rows| =>
      seq(|names|, j requires 0 <= j < |names| => Cell(t, k, names[j]))))
  }

  /** Selecting a table's own columns, when no name repeats, gives the
      table back. */
  lemma SelectAll(t: Table)
    requires WellFormed(t) && DistinctNames(t.columns)
    ensures Select(t, t.columns) == t
  {
    var r := Select(t, t.columns);
    forall k | 0 <= k < |t.rows|
      ensures r.rows[k] == t.rows[k]
    {
      forall j | 0 <= j < |t.columns|
        ensures r.rows[k][j] == t.rows[k][j]
      {
        IndexOfDistinct(t.columns, j);
      }
    }
  }

  // ---------------------------------------------------------------------
  // Alignment to a training schema

  /** The live table aligned to a training schema: exactly the training
      columns, in training order, each holding the live column's values when
      the live table has it and 0 otherwise; other live columns are gone. */
  function Aligned(t: Table, names: seq<string>): (r: Table)
    requires WellFormed(t)
    ensures WellFormed(r) && r.columns == names && |r.rows| == |t.rows|
  {
    Table(names, seq(|t.rows|, k requires 0 <= k < |t.rows| =>
      seq(|names|, j requires 0 <= j < |names| => if names[j] in t.columns then Cell(t, k, names[j]) else Zero)))
  }

  /** Every training column absent from the live table is added as a column
      of zeros, one at a time, and the result is then restricted and reordered
      to the training columns. */
  method AlignToSchema(t: Table, names: seq<string>) returns (r: Table)
    requires WellFormed(t)
    ensures r == Aligned(t, names)
  {
    var cur := t;
    for i := 0 to |names|
      invariant WellFormed(cur) && |cur.rows| == |t.rows|
      invariant forall n :: n in t.columns ==> n in cur.columns
      invariant forall n :: n in names[..i] ==> n in cur.columns
      invariant forall k, n :: 0 <= k < |t.rows| && n in cur.columns ==>
        Cell(cur, k, n) == if n in t.columns then Cell(t, k, n) else Zero
    {
      if names[i] !in cur.columns {
        var prev := cur;
        cur := AddColumn(cur, names[i], Zero);
        forall k, n | 0 <= k < |t.rows| && n in cur.columns
          ensures Cell(cur, k, n) == if n in t.columns then Cell(t, k, n) else Zero
        {
          if n in prev.columns {
            IndexOfAppend(prev.columns, names[i], n);
            assert Cell(cur, k, n) == Cell(prev, k, n);
          } else {
            assert n == names[i] && n !in t.columns;
            assert IndexOf(cur.columns, n) == |prev.columns|;
          }
        }
      }
    }
    r := Select(cur, names);
    assert forall k :: 0 <= k < |t.rows| ==> r.rows[k] == Aligned(t, names).rows[k];
  }

  /** Aligning an already aligned table changes nothing. */
  lemma AlignedIdempotent(t: Table, names: seq<string>)
    requires WellFormed(t)
    ensures Aligned(Aligned(t, names), names) == Aligned(t, names)
  {
    var a := Aligned(t, names);
    var b := Aligned(a, names);
    forall k, j | 0 <= k < |t.rows| && 0 <= j < |names|
      ensures b.rows[k][j] == a.rows[k][j]
    {
      assert names[j] in a.columns;
      var i := IndexOf(names, names[j]);
      assert names[i] == names[j];
    }
    assert forall k :: 0 <= k < |t.rows| ==> b.rows[k] == a.rows[k];
  }

  /** For a table whose columns already are the training columns, with no
      repeated name, alignment is the identity. */
  lemma AlignedIdentity(t: Table)
    requires WellFormed(t)
    requires forall i, j :: 0 <= i < j < |t.columns| ==> t.columns[i] != t.columns[j]
    ensures Aligned(t, t.columns) == t
  {
    var a := Aligned(t, t.columns);
    forall k, j | 0 <= k < |t.rows| && 0 <= j < |t.columns|
      ensures a.rows[k][j] == t.rows[k][j]
    {
      var i := IndexOf(t.columns, t.columns[j]);
      assert i == j;
    }
    assert forall k :: 0 <= k < |t.rows| ==> a.rows[k] == t.rows[k];
  }
}
