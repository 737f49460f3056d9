/** The event-to-bin aggregator, `parseScores` in utils/trend_helper.py: for
    every bin and every subject that has scored events, the number of positive
    events and the highest probability among the events dated inside that
    subject's window for the bin. */
module Trends {

  import opened Wrappers
  import opened Dates
  import opened Frames
  import opened Sorting
  import opened Text
  import opened Bins

  /** The probability reported for a (subject, bin) with no events: the base
      rate of a positive classification with no information. */
  const Prior: real := 0.2138259917276594

  /** One scored event (a row of the score table): its subject, its date, the
      model's answer, its probability, and all of the row's cells, which decide
      whether two rows are duplicates. */
  datatype ScoreRow = ScoreRow(id: int, date: Date, answer: Value, prob: real, cells: seq<Value>)

  predicate IsHit(r: ScoreRow) {
    r.answer == Num(1.0)
  }

  datatype Unit = Week | Month

  /** The offsets of one bin and the unit they are counted in. */
  datatype Window = Window(unit: Unit, start: int, end: int)

  /** One output record: subject, bin label (`Time Interval`), bin index `t`,
      `Number of Hits` and `Highest Probability`. */
  datatype Trend = Trend(id: int, interval: string, t: nat, hits: nat, highest: real)

  datatype TrendError =
    | BinIndexOutOfRange(b: nat)   // fewer starts or ends than labels
    | MissingBounds                // the first label names neither unit

  /** Anchor dates, one per subject. */
  predicate ValidAnchors(anchors: map<int, Date>) {
    forall id :: id in anchors ==> Valid(anchors[id])
  }

  predicate OccursAt(s: string, sub: string, i: int) {
    0 <= i && i + |sub| <= |s| && s[i..i + |sub|] == sub
  }

  predicate Contains(s: string, sub: string) {
    exists i :: 0 <= i <= |s| && OccursAt(s, sub, i)
  }

  /** The window a bin uses: a label containing `month` is counted in months,
      one containing `week` (and not `month`) in weeks; a label with neither
      leaves the previous bin's window in place. */
  function NextWindow(tag: string, start: int, end: int, prev: Option<Window>): Option<Window> {
    if Contains(tag, "month") then Some(Window(Month, start, end))
    else if Contains(tag, "week") then Some(Window(Week, start, end))
    else prev
  }

  /** The anchor date moved by an offset in the given unit. */
  function Bound(anchor: Date, u: Unit, offset: int): Date
    requires Valid(anchor)
  {
    match u
    case Week => AddWeeks(anchor, offset)
    case Month => AddMonths(anchor, offset)
  }

  /** An event is in a window iff its subject has an anchor date and the event
      is dated from anchor + start to anchor + end, both ends included. */
  predicate InWindow(r: ScoreRow, anchors: map<int, Date>, w: Window)
    requires ValidAnchors(anchors)
  {
    r.id in anchors &&
    Le(Bound(anchors[r.id], w.unit, w.start), r.date) &&
    Le(r.date, Bound(anchors[r.id], w.unit, w.end))
  }

  /** The subject's events inside the window, in table order. */
  function WindowRows(scores: seq<ScoreRow>, anchors: map<int, Date>, w: Window, id: int): (r: seq<ScoreRow>)
    requires ValidAnchors(anchors)
    ensures forall x :: x in r <==> x in scores && x.id == id && InWindow(x, anchors, w)
  {
    if scores == [] then []
    else
      var rest := WindowRows(scores[1..], anchors, w, id);
      assert forall x :: x in scores <==> x == scores[0] || x in scores[1..];
      if scores[0].id == id && InWindow(scores[0], anchors, w) then [scores[0]] + rest else rest
  }

  /** The distinct positive events of the subject inside the window
      (`drop_duplicates` makes identical rows count once). */
  function HitSet(scores: seq<ScoreRow>, anchors: map<int, Date>, w: Window, id: int): set<ScoreRow>
    requires ValidAnchors(anchors)
  {
    set r | r in scores && r.id == id && InWindow(r, anchors, w) && IsHit(r)
  }

  /** The largest probability among the rows. */
  function MaxProb(rows: seq<ScoreRow>): (m: real)
    requires rows != []
    ensures exists i :: 0 <= i < |rows| && rows[i].prob == m
    ensures forall i :: 0 <= i < |rows| ==> rows[i].prob <= m
  {
    if |rows| == 1 then rows[0].prob
    else
      var m := MaxProb(rows[1..]);
      assert forall i :: 1 <= i < |rows| ==> rows[i] == rows[1..][i - 1];
      if rows[0].prob >= m then rows[0].prob else m
  }

  /** `Highest Probability`: the top probability of the window's events, or
      the prior when there are none. */
  function Highest(rows: seq<ScoreRow>): real {
    if rows == [] then Prior else MaxProb(rows)
  }

  /** The record for one subject and one bin. */
  function Aggregate(scores: seq<ScoreRow>, anchors: map<int, Date>, w: Window, b: nat, tag: string, id: int): Trend
    requires ValidAnchors(anchors)
  {
    Trend(id, tag, b, |HitSet(scores, anchors, w, id)|, Highest(WindowRows(scores, anchors, w, id)))
  }

  /** The records of one bin, one per subject, in subject order. */
  function BlockRecords(scores: seq<ScoreRow>, anchors: map<int, Date>, w: Window, b: nat, tag: string, pts: seq<int>): (r: seq<Trend>)
    requires ValidAnchors(anchors)
    ensures |r| == |pts|
  {
    seq(|pts|, s requires 0 <= s < |pts| => Aggregate(scores, anchors, w, b, tag, pts[s]))
  }

  /** The records of bins b, b+1, ..., given the window left by bin b-1. */
  function BlocksFrom(scores: seq<ScoreRow>, anchors: map<int, Date>, starts: seq<int>, ends: seq<int>,
                      labels: seq<string>, pts: seq<int>, b: nat, prev: Option<Window>): Result<seq<Trend>, TrendError>
    requires ValidAnchors(anchors)
    decreases |labels| - b
  {
    if b >= |labels| then Success([])
    else if b >= |starts| || b >= |ends| then Failure(BinIndexOutOfRange(b))
    else
      var w := NextWindow(labels[b], starts[b], ends[b], prev);
      if w.None? then Failure(MissingBounds)
      else
        match BlocksFrom(scores, anchors, starts, ends, labels, pts, b + 1, w)
        case Failure(e) => Failure(e)
        case Success(rest) => Success(BlockRecords(scores, anchors, w.value, b, labels[b], pts) + rest)
  }

  function Ids(scores: seq<ScoreRow>): (r: seq<int>)
    ensures |r| == |scores| && forall i :: 0 <= i < |scores| ==> r[i] == scores[i].id
  {
    seq(|scores|, i requires 0 <= i < |scores| => scores[i].id)
  }

  /** The subjects `parseScores` reports on: the distinct ids of the score
      table, ascending (`np.unique`). */
  function Subjects(scores: seq<ScoreRow>): seq<int> {
    Unique(Ids(scores))
  }

  /** The table `parseScores` returns: bins outer, subjects inner. */
  function TimeTrends(scores: seq<ScoreRow>, anchors: map<int, Date>, starts: seq<int>, ends: seq<int>,
                      labels: seq<string>): Result<seq<Trend>, TrendError>
    requires ValidAnchors(anchors)
  {
    BlocksFrom(scores, anchors, starts, ends, labels, Subjects(scores), 0, None)
  }

  function Prepend(acc: seq<Trend>, r: Result<seq<Trend>, TrendError>): Result<seq<Trend>, TrendError> {
    match r
    case Failure(e) => Failure(e)
    case Success(v) => Success(acc + v)
  }

  /** `parseScores`: loops over the bins, recomputing each subject's window
      bounds, and over the subjects, appending one record at a time. */
  method ParseScores(scores: seq<ScoreRow>, anchors: map<int, Date>, starts: seq<int>, ends: seq<int>,
                     labels: seq<string>) returns (r: Result<seq<Trend>, TrendError>)
    requires ValidAnchors(anchors)
    ensures r == TimeTrends(scores, anchors, starts, ends, labels)
  {
    var ptList := Unique(Ids(scores));
    var timeTrends: seq<Trend> := [];
    var window: Option<Window> := None;
    ghost var goal := BlocksFrom(scores, anchors, starts, ends, labels, ptList, 0, None);
    PrependEmpty(goal);
    for b := 0 to |labels|
      invariant Prepend(timeTrends, BlocksFrom(scores, anchors, starts, ends, labels, ptList, b, window)) == goal
    {
      if b >= |starts| || b >= |ends| {
        return Failure(BinIndexOutOfRange(b));
      }
      ghost var prevWindow := window;
      window := NextWindow(labels[b], starts[b], ends[b], window);
      if window.None? {
        return Failure(MissingBounds);
      }
      BlocksFromUnfold(scores, anchors, starts, ends, labels, ptList, b, prevWindow, timeTrends);
      var temp := BinRecords(scores, anchors, window.value, b, labels[b], ptList);
      timeTrends := timeTrends + temp;
    }
    assert timeTrends + [] == timeTrends;
    r := Success(timeTrends);
  }

  /** The inner loop of `parseScores`: the records of one bin, one subject
      at a time. */
  method BinRecords(scores: seq<ScoreRow>, anchors: map<int, Date>, w: Window, b: nat, tag: string, ptList: seq<int>)
    returns (temp: seq<Trend>)
    requires ValidAnchors(anchors)
    ensures temp == BlockRecords(scores, anchors, w, b, tag, ptList)
  {
    ghost var block := BlockRecords(scores, anchors, w, b, tag, ptList);
    temp := [];
    for s := 0 to |ptList|
      invariant temp == block[..s]
    {
      var subScores := WindowRows(scores, anchors, w, ptList[s]);
      var n := |HitSet(scores, anchors, w, ptList[s])|;
      var highest := if |subScores| > 0 then MaxProb(subScores) else Prior;
      temp := temp + [Trend(ptList[s], tag, b, n, highest)];
      assert block[..s + 1] == block[..s] + [block[s]];
    }
    assert block[..|ptList|] == block;
  }

  lemma PrependEmpty(r: Result<seq<Trend>, TrendError>)
    ensures Prepend([], r) == r
  {
    if r.Success? {
      assert [] + r.value == r.value;
    }
  }

  /** One bin's records come first, then those of the later bins. */
  lemma BlocksFromUnfold(scores: seq<ScoreRow>, anchors: map<int, Date>, starts: seq<int>, ends: seq<int>,
                         labels: seq<string>, pts: seq<int>, b: nat, prev: Option<Window>, acc: seq<Trend>)
    requires ValidAnchors(anchors)
    requires b < |labels| && b < |starts| && b < |ends|
    requires NextWindow(labels[b], starts[b], ends[b], prev).Some?
    ensures var w := NextWindow(labels[b], starts[b], ends[b], prev);
      Prepend(acc, BlocksFrom(scores, anchors, starts, ends, labels, pts, b, prev)) ==
      Prepend(acc + BlockRecords(scores, anchors, w.value, b, labels[b], pts),
              BlocksFrom(scores, anchors, starts, ends, labels, pts, b + 1, w))
  {
    var w := NextWindow(labels[b], starts[b], ends[b], prev);
    match BlocksFrom(scores, anchors, starts, ends, labels, pts, b + 1, w)
    case Failure(e) =>
    case Success(rest) =>
      assert acc + (BlockRecords(scores, anchors, w.value, b, labels[b], pts) + rest) ==
        (acc + BlockRecords(scores, anchors, w.value, b, labels[b], pts)) + rest;
  }

  // -----------------------------------------------------------------------
  // When the aggregation succeeds, and the layout of its records

  predicate NamesUnit(tag: string) {
    Contains(tag, "month") || Contains(tag, "week")
  }

  /** The window in force for bin b. */
  function WindowAt(starts: seq<int>, ends: seq<int>, labels: seq<string>, b: nat): Option<Window>
    requires b < |labels| && b < |starts| && b < |ends|
  {
    NextWindow(labels[b], starts[b], ends[b], if b == 0 then None else WindowAt(starts, ends, labels, b - 1))
  }

  /** The window left in force by the bins before b. */
  function PrevWindow(starts: seq<int>, ends: seq<int>, labels: seq<string>, b: nat): Option<Window>
    requires b <= |labels| && b <= |starts| && b <= |ends|
  {
    if b == 0 then None else WindowAt(starts, ends, labels, b - 1)
  }

  lemma {:induction false} BlocksFromSuccess(scores: seq<ScoreRow>, anchors: map<int, Date>, starts: seq<int>, ends: seq<int>,
                                             labels: seq<string>, pts: seq<int>, b: nat, prev: Option<Window>)
    requires ValidAnchors(anchors)
    ensures BlocksFrom(scores, anchors, starts, ends, labels, pts, b, prev).Success? <==>
      b >= |labels| || (|starts| >= |labels| && |ends| >= |labels| && (prev.Some? || NamesUnit(labels[b])))
    decreases |labels| - b
  {
    if b < |labels| && b < |starts| && b < |ends| {
      var w := NextWindow(labels[b], starts[b], ends[b], prev);
      BlocksFromSuccess(scores, anchors, starts, ends, labels, pts, b + 1, w);
    }
  }

  /** The aggregation fails exactly when some label has no start or end, or
      when the first label names neither `week` nor `month`. */
  lemma TimeTrendsSuccess(scores: seq<ScoreRow>, anchors: map<int, Date>, starts: seq<int>, ends: seq<int>, labels: seq<string>)
    requires ValidAnchors(anchors)
    ensures TimeTrends(scores, anchors, starts, ends, labels).Success? <==>
      |labels| == 0 || (|starts| >= |labels| && |ends| >= |labels| && NamesUnit(labels[0]))
  {
    BlocksFromSuccess(scores, anchors, starts, ends, labels, Subjects(scores), 0, None);
  }

  lemma {:induction false} BlocksFromLength(scores: seq<ScoreRow>, anchors: map<int, Date>, starts: seq<int>, ends: seq<int>,
                                            labels: seq<string>, pts: seq<int>, b: nat, prev: Option<Window>, T: seq<Trend>)
    requires ValidAnchors(anchors) && b <= |labels|
    requires BlocksFrom(scores, anchors, starts, ends, labels, pts, b, prev) == Success(T)
    ensures |T| == (|labels| - b) * |pts|
    decreases |labels| - b
  {
    if b < |labels| {
      var w := NextWindow(labels[b], starts[b], ends[b], prev);
      var rest := BlocksFrom(scores, anchors, starts, ends, labels, pts, b + 1, w).value;
      BlocksFromLength(scores, anchors, starts, ends, labels, pts, b + 1, w, rest);
      MulSucc(|labels| - b - 1, |pts|);
    }
  }

  lemma IndexInRest<X>(block: seq<X>, rest: seq<X>, q: nat, s: nat)
    requires q * |block| + s < |rest|
    ensures (q + 1) * |block| + s < |block + rest|
    ensures (block + rest)[(q + 1) * |block| + s] == rest[q * |block| + s]
  {
    MulSucc(q, |block|);
  }

  lemma MulSucc(a: int, n: int)
    ensures (a + 1) * n == n + a * n
  {
  }

  lemma BlocksFromStep(scores: seq<ScoreRow>, anchors: map<int, Date>, starts: seq<int>, ends: seq<int>,
                       labels: seq<string>, pts: seq<int>, b: nat, prev: Option<Window>, T: seq<Trend>)
    requires ValidAnchors(anchors) && b < |labels|
    requires BlocksFrom(scores, anchors, starts, ends, labels, pts, b, prev) == Success(T)
    ensures b < |starts| && b < |ends|
    ensures var w := NextWindow(labels[b], starts[b], ends[b], prev);
      && w.Some?
      && BlocksFrom(scores, anchors, starts, ends, labels, pts, b + 1, w).Success?
      && T == BlockRecords(scores, anchors, w.value, b, labels[b], pts) + BlocksFrom(scores, anchors, starts, ends, labels, pts, b + 1, w).value
  {
  }

  /** Bins b onwards hold one block of |pts| records per bin, so the record
      of bin k and the s-th subject sits at offset (k - b) * |pts| + s. */
  lemma {:induction false} BlocksFromAt(scores: seq<ScoreRow>, anchors: map<int, Date>, starts: seq<int>, ends: seq<int>,
                                        labels: seq<string>, pts: seq<int>, b: nat, k: nat, s: nat, i: nat, T: seq<Trend>)
      returns (w: Window)
    requires ValidAnchors(anchors)
    requires b <= k < |labels| <= |starts| && |labels| <= |ends| && s < |pts|
    requires i == (k - b) * |pts| + s
    requires BlocksFrom(scores, anchors, starts, ends, labels, pts, b, PrevWindow(starts, ends, labels, b)) == Success(T)
    ensures WindowAt(starts, ends, labels, k) == Some(w)
    ensures i < |T| && T[i] == Aggregate(scores, anchors, w, k, labels[k], pts[s])
    decreases k - b
  {
    BlocksFromStep(scores, anchors, starts, ends, labels, pts, b, PrevWindow(starts, ends, labels, b), T);
    var wb := WindowAt(starts, ends, labels, b);
    var block := BlockRecords(scores, anchors, wb.value, b, labels[b], pts);
    var rest := BlocksFrom(scores, anchors, starts, ends, labels, pts, b + 1, wb).value;
    assert T == block + rest;
    if k == b {
      assert i == s;
      w := wb.value;
    } else {
      assert PrevWindow(starts, ends, labels, b + 1) == wb;
      var q := k - (b + 1);
      assert (q + 1) * |block| == (k - b) * |pts|;
      MulSucc(q, |block|);
      w := BlocksFromAt(scores, anchors, starts, ends, labels, pts, b + 1, k, s, q * |pts| + s, rest);
      IndexInRest(block, rest, q, s);
    }
  }

  /** The distinct subjects of the score table, ascending. */
  lemma SubjectsMembers(scores: seq<ScoreRow>)
    ensures StrictlyIncreasing(Subjects(scores))
    ensures forall id :: id in Subjects(scores) <==> exists i :: 0 <= i < |scores| && scores[i].id == id
  {
    forall id ensures id in Subjects(scores) <==> exists i :: 0 <= i < |scores| && scores[i].id == id {
      if id in Subjects(scores) {
        var i :| 0 <= i < |Ids(scores)| && Ids(scores)[i] == id;
      }
      if exists i :: 0 <= i < |scores| && scores[i].id == id {
        var i :| 0 <= i < |scores| && scores[i].id == id;
        assert Ids(scores)[i] == id;
      }
    }
  }

  /** On success there is one record per bin and subject of the score table,
      bins outer in label order and subjects inner in ascending id. */
  lemma TimeTrendsLength(scores: seq<ScoreRow>, anchors: map<int, Date>, starts: seq<int>, ends: seq<int>,
                         labels: seq<string>, T: seq<Trend>)
    requires ValidAnchors(anchors)
    requires TimeTrends(scores, anchors, starts, ends, labels) == Success(T)
    ensures |T| == |labels| * |Subjects(scores)|
    ensures |labels| <= |starts| && |labels| <= |ends|
  {
    BlocksFromLength(scores, anchors, starts, ends, labels, Subjects(scores), 0, None, T);
    TimeTrendsSuccess(scores, anchors, starts, ends, labels);
  }

  /** The record of bin b and the s-th subject sits at b * |subjects| + s
      and aggregates that subject's events in the window in force for b,
      with `t` the bin index. */
  lemma TimeTrendsAt(scores: seq<ScoreRow>, anchors: map<int, Date>, starts: seq<int>, ends: seq<int>,
                     labels: seq<string>, T: seq<Trend>, b: nat, s: nat)
    requires ValidAnchors(anchors)
    requires TimeTrends(scores, anchors, starts, ends, labels) == Success(T)
    requires b < |labels| && s < |Subjects(scores)|
    ensures b < |starts| && b < |ends| && WindowAt(starts, ends, labels, b).Some?
    ensures b * |Subjects(scores)| + s < |T|
    ensures T[b * |Subjects(scores)| + s] ==
      Aggregate(scores, anchors, WindowAt(starts, ends, labels, b).value, b, labels[b], Subjects(scores)[s])
  {
    TimeTrendsSuccess(scores, anchors, starts, ends, labels);
    assert PrevWindow(starts, ends, labels, 0) == None;
    var w := BlocksFromAt(scores, anchors, starts, ends, labels, Subjects(scores), 0, b, s, b * |Subjects(scores)| + s, T);
  }

  // -----------------------------------------------------------------------
  // What one record says

  /** `Number of Hits` counts the subject's distinct positive events in the
      window; `Highest Probability` is the largest probability among all its
      events in the window, whatever their answer, and exactly the prior when
      there are none (then there are no hits either). */
  lemma AggregateMeaning(scores: seq<ScoreRow>, anchors: map<int, Date>, w: Window, b: nat, tag: string, id: int)
    requires ValidAnchors(anchors)
    ensures var a := Aggregate(scores, anchors, w, b, tag, id);
      var rows := WindowRows(scores, anchors, w, id);
      && a.id == id && a.interval == tag && a.t == b
      && (forall r :: r in HitSet(scores, anchors, w, id) <==> r in scores && r.id == id && InWindow(r, anchors, w) && IsHit(r))
      && a.hits <= |rows|
      && (rows == [] ==> a.hits == 0 && a.highest == Prior)
      && (rows != [] ==> (exists r :: r in rows && r.prob == a.highest) && forall r :: r in rows ==> r.prob <= a.highest)
  {
    var rows := WindowRows(scores, anchors, w, id);
    var hs := HitSet(scores, anchors, w, id);
    assert hs <= set r | r in rows;
    SetOfSeqSize(rows);
    SubsetSize(hs, set r | r in rows);
    if rows != [] {
      var m := MaxProb(rows);
      var i :| 0 <= i < |rows| && rows[i].prob == m;
      assert rows[i] in rows;
      forall r | r in rows ensures r.prob <= m {
        var j :| 0 <= j < |rows| && rows[j] == r;
      }
    }
  }

  lemma {:induction false} SetOfSeqSize<T>(s: seq<T>)
    ensures |set x | x in s| <= |s|
  {
    if s != [] {
      SetOfSeqSize(s[1..]);
      assert (set x | x in s) == (set x | x in s[1..]) + {s[0]};
    }
  }

  lemma SubsetSize<T>(a: set<T>, b: set<T>)
    requires a <= b
    ensures |a| <= |b|
  {
    assert b == a + (b - a);
  }

  lemma {:induction false} NoAnchorNoRows(scores: seq<ScoreRow>, anchors: map<int, Date>, w: Window, id: int)
    requires ValidAnchors(anchors) && id !in anchors
    ensures WindowRows(scores, anchors, w, id) == []
  {
    if scores != [] {
      NoAnchorNoRows(scores[1..], anchors, w, id);
    }
  }

  /** Events of a subject with no anchor date fall in no bin. */
  lemma NoAnchorNoBin(scores: seq<ScoreRow>, anchors: map<int, Date>, w: Window, id: int)
    requires ValidAnchors(anchors) && id !in anchors
    ensures WindowRows(scores, anchors, w, id) == []
    ensures Aggregate(scores, anchors, w, 0, "", id).hits == 0
    ensures Aggregate(scores, anchors, w, 0, "", id).highest == Prior
  {
    NoAnchorNoRows(scores, anchors, w, id);
    assert HitSet(scores, anchors, w, id) == {};
  }

  /** Anchor + offset moves forward as the offset grows (offsets in weeks from
      zero, in months anywhere). */
  lemma BoundMonotone(anchor: Date, u: Unit, a: int, c: int)
    requires Valid(anchor) && a <= c && (u == Week ==> 0 <= a)
    ensures Le(Bound(anchor, u, a), Bound(anchor, u, c))
  {
    if u == Week {
      AddWeeksMonotone(anchor, a, c);
    } else {
      AddMonthsMonotone(anchor, a, c);
    }
  }

  /** An event dated exactly on the boundary shared by two adjacent windows
      (the first one's end, the second one's start) is inside both of them. */
  lemma BoundaryInBothWindows(r: ScoreRow, anchors: map<int, Date>, u: Unit, a: int, m: int, c: int)
    requires ValidAnchors(anchors) && r.id in anchors
    requires a <= m <= c && (u == Week ==> 0 <= a)
    requires r.date == Bound(anchors[r.id], u, m)
    ensures InWindow(r, anchors, Window(u, a, m)) && InWindow(r, anchors, Window(u, m, c))
  {
    BoundMonotone(anchors[r.id], u, a, m);
    BoundMonotone(anchors[r.id], u, m, c);
  }

  /** Such a boundary event is counted by both bins' records: each has at
      least one hit if the event is positive, and each reports at least its
      probability. */
  lemma BoundaryCountedTwice(scores: seq<ScoreRow>, anchors: map<int, Date>, r: ScoreRow, u: Unit, a: int, m: int, c: int, b: nat)
    requires ValidAnchors(anchors) && r in scores && r.id in anchors
    requires a <= m <= c && (u == Week ==> 0 <= a)
    requires r.date == Bound(anchors[r.id], u, m)
    ensures var first := Aggregate(scores, anchors, Window(u, a, m), b, "", r.id);
      var second := Aggregate(scores, anchors, Window(u, m, c), b + 1, "", r.id);
      && (IsHit(r) ==> first.hits >= 1 && second.hits >= 1)
      && first.highest >= r.prob && second.highest >= r.prob
  {
    BoundaryInBothWindows(r, anchors, u, a, m, c);
    AggregateMeaning(scores, anchors, Window(u, a, m), b, "", r.id);
    AggregateMeaning(scores, anchors, Window(u, m, c), b + 1, "", r.id);
    if IsHit(r) {
      assert r in HitSet(scores, anchors, Window(u, a, m), r.id);
      assert r in HitSet(scores, anchors, Window(u, m, c), r.id);
    }
  }

  // -----------------------------------------------------------------------
  // Duplicate rows

  lemma HighestSameRows(r1: seq<ScoreRow>, r2: seq<ScoreRow>)
    requires forall r :: r in r1 <==> r in r2
    ensures Highest(r1) == Highest(r2)
  {
    if r1 != [] {
      assert r1[0] in r1;
    }
    if r2 != [] {
      assert r2[0] in r2;
    }
    if r1 != [] && r2 != [] {
      var m1, m2 := MaxProb(r1), MaxProb(r2);
      var i :| 0 <= i < |r1| && r1[i].prob == m1;
      var j :| 0 <= j < |r2| && r2[j].prob == m2;
      assert r1[i] in r2;
      assert r2[j] in r1;
      var i' :| 0 <= i' < |r2| && r2[i'] == r1[i];
      var j' :| 0 <= j' < |r1| && r1[j'] == r2[j];
    }
  }

  /** Records depend on the score table only through its set of rows. */
  lemma AggregateSameRows(s1: seq<ScoreRow>, s2: seq<ScoreRow>, anchors: map<int, Date>, w: Window, b: nat, tag: string, id: int)
    requires ValidAnchors(anchors)
    requires forall r :: r in s1 <==> r in s2
    ensures Aggregate(s1, anchors, w, b, tag, id) == Aggregate(s2, anchors, w, b, tag, id)
  {
    assert HitSet(s1, anchors, w, id) == HitSet(s2, anchors, w, id);
    HighestSameRows(WindowRows(s1, anchors, w, id), WindowRows(s2, anchors, w, id));
  }

  lemma {:induction false} BlocksFromSameRows(s1: seq<ScoreRow>, s2: seq<ScoreRow>, anchors: map<int, Date>, starts: seq<int>, ends: seq<int>,
                                              labels: seq<string>, pts: seq<int>, b: nat, prev: Option<Window>)
    requires ValidAnchors(anchors)
    requires forall r :: r in s1 <==> r in s2
    ensures BlocksFrom(s1, anchors, starts, ends, labels, pts, b, prev) == BlocksFrom(s2, anchors, starts, ends, labels, pts, b, prev)
    decreases |labels| - b
  {
    if b < |labels| && b < |starts| && b < |ends| {
      var w := NextWindow(labels[b], starts[b], ends[b], prev);
      if w.Some? {
        BlocksFromSameRows(s1, s2, anchors, starts, ends, labels, pts, b + 1, w);
        forall s | 0 <= s < |pts|
          ensures BlockRecords(s1, anchors, w.value, b, labels[b], pts)[s] == BlockRecords(s2, anchors, w.value, b, labels[b], pts)[s]
        {
          AggregateSameRows(s1, s2, anchors, w.value, b, labels[b], pts[s]);
        }
        assert BlockRecords(s1, anchors, w.value, b, labels[b], pts) == BlockRecords(s2, anchors, w.value, b, labels[b], pts);
      }
    }
  }

  /** Repeating a row of the score table changes nothing in the output: the
      duplicate is dropped before counting (`drop_duplicates`). */
  lemma DuplicateRowIgnored(scores: seq<ScoreRow>, anchors: map<int, Date>, starts: seq<int>, ends: seq<int>,
                            labels: seq<string>, r: ScoreRow)
    requires ValidAnchors(anchors) && r in scores
    ensures TimeTrends(scores + [r], anchors, starts, ends, labels) == TimeTrends(scores, anchors, starts, ends, labels)
  {
    var s2 := scores + [r];
    assert forall x :: x in s2 <==> x in scores;
    forall y ensures y in Ids(s2) <==> y in Ids(scores) {
      if y in Ids(s2) {
        var i :| 0 <= i < |s2| && Ids(s2)[i] == y;
        if i == |scores| {
          var j :| 0 <= j < |scores| && scores[j] == r;
          assert Ids(scores)[j] == y;
        } else {
          assert Ids(scores)[i] == y;
        }
      }
      if y in Ids(scores) {
        var i :| 0 <= i < |scores| && Ids(scores)[i] == y;
        assert Ids(s2)[i] == y;
      }
    }
    StrictlyIncreasingUnique(Subjects(s2), Subjects(scores));
    BlocksFromSameRows(s2, scores, anchors, starts, ends, labels, Subjects(scores), 0, None);
  }

  // -----------------------------------------------------------------------
  // The bins of `makeBins` and the windows they give

  function UnitOf(window: string): Unit {
    if window == "week" then Week else Month
  }

  lemma ContainsSuffix(x: string, u: string)
    ensures Contains(x + u, u)
  {
    assert (x + u)[|x|..|x| + |u|] == u;
    assert OccursAt(x + u, u, |x|);
  }

  lemma NoMonthWithoutM(l: string)
    requires forall i :: 0 <= i < |l| ==> l[i] != 'm'
    ensures !Contains(l, "month")
  {
    forall i | 0 <= i <= |l| ensures !OccursAt(l, "month", i) {
      if i + 5 <= |l| {
        assert l[i..i + 5][0] == l[i];
      }
    }
  }

  lemma WeekLabelHasNoM(start: int, end: int)
    requires 0 <= start && 0 <= end
    ensures forall i :: 0 <= i < |Label(start, end, "week")| ==> Label(start, end, "week")[i] != 'm'
  {
    var a, c := NatToString(start), NatToString(end);
    var l := Label(start, end, "week");
    assert l == a + "to" + c + "week";
    forall i | 0 <= i < |l| ensures l[i] != 'm' {
      if i < |a| {
        assert l[i] == a[i];
      } else if i < |a| + 2 {
        assert l[i] == "to"[i - |a|];
      } else if i < |a| + 2 + |c| {
        assert l[i] == c[i - |a| - 2];
      } else {
        assert l[i] == "week"[i - |a| - 2 - |c|];
      }
    }
  }

  /** With the bins `makeBins` produces, every bin is counted in the unit of
      the window keyword and between that bin's own start and end offsets,
      whatever the bins before it were: every label names its unit. */
  lemma MakeBinsWindows(window: string, nYears: int, b: nat)
    requires BinsOf(window, nYears).Success?
    requires b < |BinsOf(window, nYears).value.labels|
    ensures var bins := BinsOf(window, nYears).value;
      b < |bins.starts| && b < |bins.ends| &&
      WindowAt(bins.starts, bins.ends, bins.labels, b) == Some(Window(UnitOf(window), bins.starts[b], bins.ends[b]))
  {
    var bins := BinsOf(window, nYears).value;
    BinsContiguous(window, nYears);
    var l := bins.labels[b];
    var w := WindowOf(window).value;
    assert l == Label(bins.starts[b], bins.ends[b], w.unit);
    assert l == (IntToString(bins.starts[b]) + "to" + IntToString(bins.ends[b])) + w.unit;
    ContainsSuffix(IntToString(bins.starts[b]) + "to" + IntToString(bins.ends[b]), w.unit);
    if window == "week" {
      WeekLabelHasNoM(bins.starts[b], bins.ends[b]);
      NoMonthWithoutM(l);
    }
  }

  /** With the bins `makeBins` produces, the aggregation always succeeds. */
  lemma MakeBinsTrendsSucceed(scores: seq<ScoreRow>, anchors: map<int, Date>, window: string, nYears: int)
    requires ValidAnchors(anchors) && BinsOf(window, nYears).Success?
    ensures var bins := BinsOf(window, nYears).value;
      TimeTrends(scores, anchors, bins.starts, bins.ends, bins.labels).Success?
  {
    var bins := BinsOf(window, nYears).value;
    BinsContiguous(window, nYears);
    if |bins.labels| > 0 {
      MakeBinsWindows(window, nYears, 0);
      assert NextWindow(bins.labels[0], bins.starts[0], bins.ends[0], None).Some?;
    }
    TimeTrendsSuccess(scores, anchors, bins.starts, bins.ends, bins.labels);
  }

  // -----------------------------------------------------------------------
  // A subject with one positive note, anchored on 2020-01-01

  lemma WeekWindowsOfFirstJanuary()
    ensures Bound(Date(2020, 1, 1), Week, 0) == Date(2020, 1, 1)
    ensures Bound(Date(2020, 1, 1), Week, 1) == Date(2020, 1, 8)
    ensures Bound(Date(2020, 1, 1), Week, 2) == Date(2020, 1, 15)
  {
    AddDaysWithinMonth(Date(2020, 1, 1), 7);
    AddDaysWithinMonth(Date(2020, 1, 1), 14);
  }

  /** The record of a subject whose only event is r. */
  lemma AggregateOneRow(r: ScoreRow, anchors: map<int, Date>, w: Window, b: nat, tag: string)
    requires ValidAnchors(anchors)
    ensures Aggregate([r], anchors, w, b, tag, r.id) ==
      if InWindow(r, anchors, w) then Trend(r.id, tag, b, if IsHit(r) then 1 else 0, r.prob)
      else Trend(r.id, tag, b, 0, Prior)
  {
    if InWindow(r, anchors, w) {
      assert WindowRows([r], anchors, w, r.id) == [r];
      if IsHit(r) {
        assert HitSet([r], anchors, w, r.id) == {r};
      } else {
        assert HitSet([r], anchors, w, r.id) == {};
      }
    } else {
      assert WindowRows([r], anchors, w, r.id) == [];
      assert HitSet([r], anchors, w, r.id) == {};
    }
  }

  /** The two weekly bins "0to1week" and "1to2week". */
  lemma TwoWeeklyBins(scores: seq<ScoreRow>, anchors: map<int, Date>)
    requires ValidAnchors(anchors)
    ensures TimeTrends(scores, anchors, [0, 1], [1, 2], ["0to1week", "1to2week"]) ==
      Success(BlockRecords(scores, anchors, Window(Week, 0, 1), 0, "0to1week", Subjects(scores)) +
              BlockRecords(scores, anchors, Window(Week, 1, 2), 1, "1to2week", Subjects(scores)))
  {
    WeekLabelHasNoM(0, 1);
    WeekLabelHasNoM(1, 2);
    assert Label(0, 1, "week") == "0to1week" == "0to1" + "week";
    assert Label(1, 2, "week") == "1to2week" == "1to2" + "week";
    NoMonthWithoutM("0to1week");
    NoMonthWithoutM("1to2week");
    ContainsSuffix("0to1", "week");
    ContainsSuffix("1to2", "week");
    var rest := BlockRecords(scores, anchors, Window(Week, 1, 2), 1, "1to2week", Subjects(scores));
    assert rest + [] == rest;
  }

  /** The records of a single subject with a single event in the two weekly
      bins. */
  lemma OneRowTwoWeeklyBins(r: ScoreRow, anchors: map<int, Date>)
    requires ValidAnchors(anchors)
    ensures TimeTrends([r], anchors, [0, 1], [1, 2], ["0to1week", "1to2week"]) ==
      Success([Aggregate([r], anchors, Window(Week, 0, 1), 0, "0to1week", r.id),
               Aggregate([r], anchors, Window(Week, 1, 2), 1, "1to2week", r.id)])
  {
    assert Ids([r]) == [r.id];
    assert Unique([r.id][1..]) == [];
    assert Subjects([r]) == [r.id];
    TwoWeeklyBins([r], anchors);
    var b0 := BlockRecords([r], anchors, Window(Week, 0, 1), 0, "0to1week", [r.id]);
    var b1 := BlockRecords([r], anchors, Window(Week, 1, 2), 1, "1to2week", [r.id]);
    assert b0 == [Aggregate([r], anchors, Window(Week, 0, 1), 0, "0to1week", r.id)];
    assert b1 == [Aggregate([r], anchors, Window(Week, 1, 2), 1, "1to2week", r.id)];
    assert TimeTrends([r], anchors, [0, 1], [1, 2], ["0to1week", "1to2week"]) == Success(b0 + b1);
    assert b0 + b1 == [b0[0], b1[0]];
  }

  /** One positive note with probability 0.9 for a subject anchored on
      2020-01-01, dated on the anchor day: it counts in "0to1week" only; the
      second bin starts on 2020-01-08 and reports the prior. */
  lemma NoteOnAnchorDay()
    ensures var r := ScoreRow(1, Date(2020, 1, 1), Num(1.0), 0.9, []);
      TimeTrends([r], map[1 := Date(2020, 1, 1)], [0, 1], [1, 2], ["0to1week", "1to2week"]) ==
      Success([Trend(1, "0to1week", 0, 1, 0.9), Trend(1, "1to2week", 1, 0, Prior)])
  {
    var r := ScoreRow(1, Date(2020, 1, 1), Num(1.0), 0.9, []);
    var anchors := map[1 := Date(2020, 1, 1)];
    WeekWindowsOfFirstJanuary();
    OneRowTwoWeeklyBins(r, anchors);
    AggregateOneRow(r, anchors, Window(Week, 0, 1), 0, "0to1week");
    AggregateOneRow(r, anchors, Window(Week, 1, 2), 1, "1to2week");
  }

  /** The same note dated 2020-01-08, the boundary the two bins share: it
      counts in both. */
  lemma NoteOnSharedBoundary()
    ensures var r := ScoreRow(1, Date(2020, 1, 8), Num(1.0), 0.9, []);
      TimeTrends([r], map[1 := Date(2020, 1, 1)], [0, 1], [1, 2], ["0to1week", "1to2week"]) ==
      Success([Trend(1, "0to1week", 0, 1, 0.9), Trend(1, "1to2week", 1, 1, 0.9)])
  {
    var r := ScoreRow(1, Date(2020, 1, 8), Num(1.0), 0.9, []);
    var anchors := map[1 := Date(2020, 1, 1)];
    WeekWindowsOfFirstJanuary();
    OneRowTwoWeeklyBins(r, anchors);
    AggregateOneRow(r, anchors, Window(Week, 0, 1), 0, "0to1week");
    AggregateOneRow(r, anchors, Window(Week, 1, 2), 1, "1to2week");
  }
}
