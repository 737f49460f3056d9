/** The ordering operations the pipeline borrows from pandas and numpy:
    a stable sort on a lexicographic key (`sort_values`), the sorted distinct
    values of an integer column (`np.unique`), and dropping repeated rows while
    keeping the first (`drop_duplicates`). */
module Sorting {

  /** A sort key: compared lexicographically, field by field. */
  datatype Key = Key(a: int, b: int, c: int, d: int)

  predicate KeyLe(x: Key, y: Key) {
    x.a < y.a || (x.a == y.a && (x.b < y.b || (x.b == y.b && (x.c < y.c || (x.c == y.c && x.d <= y.d)))))
  }

  predicate SortedBy<T>(s: seq<T>, key: T -> Key) {
    forall i, j :: 0 <= i < j < |s| ==> KeyLe(key(s[i]), key(s[j]))
  }

  /** Inserts x before the first element whose key is not smaller. */
  function Insert<T>(x: T, s: seq<T>, key: T -> Key): (r: seq<T>)
    ensures multiset(r) == multiset(s) + multiset{x}
  {
    if s == [] || KeyLe(key(x), key(s[0])) then [x] + s
    else
      assert s == [s[0]] + s[1..];
      [s[0]] + Insert(x, s[1..], key)
  }

  /** A stable sort by key: each element goes in front of the elements that
      follow it in the input and have the same key. */
  function SortBy<T>(s: seq<T>, key: T -> Key): (r: seq<T>)
    ensures multiset(r) == multiset(s) && |r| == |s|
  {
    if s == [] then []
    else
      assert s == [s[0]] + s[1..];
      Insert(s[0], SortBy(s[1..], key), key)
  }

  /** Sorting keeps exactly the elements it was given. */
  lemma SortByMembers<T>(s: seq<T>, key: T -> Key)
    ensures forall x :: x in SortBy(s, key) <==> x in s
  {
    forall x ensures x in SortBy(s, key) <==> x in s {
      assert x in s <==> x in multiset(s);
      assert x in SortBy(s, key) <==> x in multiset(SortBy(s, key));
    }
  }

  lemma {:induction false} InsertSorted<T>(x: T, s: seq<T>, key: T -> Key)
    requires SortedBy(s, key)
    ensures SortedBy(Insert(x, s, key), key)
  {
    if s != [] && !KeyLe(key(x), key(s[0])) {
      InsertSorted(x, s[1..], key);
      var r := Insert(x, s[1..], key);
      forall y | y in multiset(r)
        ensures KeyLe(key(s[0]), key(y))
      {
        assert y in multiset(s[1..]) + multiset{x};
        if y in multiset(s[1..]) {
          var k :| 0 <= k < |s[1..]| && s[1..][k] == y;
          assert s[k + 1] == y;
        }
      }
      forall j | 0 <= j < |r|
        ensures KeyLe(key(s[0]), key(r[j]))
      {
        assert r[j] in multiset(r);
      }
    }
  }

  /** The sort's output is ordered by key (and, by its contract, is a
      permutation of the input). */
  lemma {:induction false} SortBySorted<T>(s: seq<T>, key: T -> Key)
    ensures SortedBy(SortBy(s, key), key)
  {
    if s != [] {
      SortBySorted(s[1..], key);
      InsertSorted(s[0], SortBy(s[1..], key), key);
    }
  }

  predicate StrictlyIncreasing(s: seq<int>) {
    forall i, j :: 0 <= i < j < |s| ==> s[i] < s[j]
  }

  /** Adds x to a strictly increasing sequence, unless it is already there. */
  function InsertUnique(x: int, s: seq<int>): (r: seq<int>)
    requires StrictlyIncreasing(s)
    ensures StrictlyIncreasing(r)
    ensures forall y :: y in r <==> y in s || y == x
  {
    if s == [] || x < s[0] then [x] + s
    else if x == s[0] then s
    else
      var rest := InsertUnique(x, s[1..]);
      assert forall y :: y in s[1..] ==> s[0] < y by {
        forall y | y in s[1..] ensures s[0] < y {
          var k :| 0 <= k < |s[1..]| && s[1..][k] == y;
          assert s[k + 1] == y;
        }
      }
      assert forall k :: 0 <= k < |rest| ==> s[0] < rest[k] by {
        forall k | 0 <= k < |rest| ensures s[0] < rest[k] {
          assert rest[k] in rest;
        }
      }
      [s[0]] + rest
  }

  /** `np.unique`: the distinct values, ascending. */
  function Unique(xs: seq<int>): (r: seq<int>)
    ensures StrictlyIncreasing(r)
    ensures forall y :: y in r <==> y in xs
  {
    if xs == [] then [] else InsertUnique(xs[0], Unique(xs[1..]))
  }

  /** A strictly increasing sequence is determined by its elements, so
      `np.unique` of two columns with the same values gives the same list. */
  lemma {:induction false} StrictlyIncreasingUnique(s: seq<int>, t: seq<int>)
    requires StrictlyIncreasing(s) && StrictlyIncreasing(t)
    requires forall y :: y in s <==> y in t
    ensures s == t
  {
    if s != [] {
      assert s[0] in s;
      assert s[0] in t;
    }
    if t != [] {
      assert t[0] in t;
      assert t[0] in s;
    }
    if s != [] && t != [] {
      assert s[0] == t[0];
      forall y ensures y in s[1..] <==> y in t[1..] {
        if y in s[1..] {
          var k :| 0 <= k < |s[1..]| && s[1..][k] == y;
          assert s[0] < s[k + 1];
          assert y in t;
        }
        if y in t[1..] {
          var k :| 0 <= k < |t[1..]| && t[1..][k] == y;
          assert t[0] < t[k + 1];
          assert y in s;
        }
      }
      StrictlyIncreasingUnique(s[1..], t[1..]);
    }
  }

  /** `drop_duplicates`: keeps the first occurrence of every value, in order. */
  function Dedup<T(==)>(s: seq<T>): (r: seq<T>)
    ensures forall i :: 0 <= i < |r| ==> r[i] in s
    ensures forall i :: 0 <= i < |s| ==> s[i] in r
    ensures forall i, j :: 0 <= i < j < |r| ==> r[i] != r[j]
  {
    DedupAfter(s, {})
  }

  lemma DedupMembers<T>(s: seq<T>)
    ensures forall x :: x in Dedup(s) <==> x in s
  {
    forall x ensures x in Dedup(s) <==> x in s {
      if x in Dedup(s) {
        var i :| 0 <= i < |Dedup(s)| && Dedup(s)[i] == x;
      }
      if x in s {
        var i :| 0 <= i < |s| && s[i] == x;
      }
    }
  }

  function DedupAfter<T(==)>(s: seq<T>, seen: set<T>): (r: seq<T>)
    ensures forall i :: 0 <= i < |r| ==> r[i] in s && r[i] !in seen
    ensures forall i :: 0 <= i < |s| ==> s[i] in r || s[i] in seen
    ensures forall i, j :: 0 <= i < j < |r| ==> r[i] != r[j]
  {
    if s == [] then []
    else if s[0] in seen then DedupAfter(s[1..], seen)
    else [s[0]] + DedupAfter(s[1..], seen + {s[0]})
  }

  /** The position of the first occurrence of x. */
  function FirstPos<T(==)>(s: seq<T>, x: T): (i: nat)
    requires x in s
    ensures i < |s| && s[i] == x && forall j :: 0 <= j < i ==> s[j] != x
  {
    if s[0] == x then 0
    else
      var i := 1 + FirstPos(s[1..], x);
      assert forall j :: 1 <= j < i ==> s[j] == s[1..][j - 1];
      i
  }

  /** The elements of r occur in s, in the order of their first
      occurrences there. */
  predicate InFirstOrder<T(==)>(s: seq<T>, r: seq<T>) {
    forall i, j :: 0 <= i < j < |r| ==> r[i] in s && r[j] in s && FirstPos(s, r[i]) < FirstPos(s, r[j])
  }

  lemma TailPos<T>(s: seq<T>, x: T)
    requires s != [] && x in s[1..] && x != s[0]
    ensures x in s && FirstPos(s, x) == 1 + FirstPos(s[1..], x)
  {
  }

  /** Passing over an element already seen, or putting a new one in front,
      keeps the first-occurrence order. */
  lemma InFirstOrderCons<T>(s: seq<T>, rest: seq<T>, front: seq<T>)
    requires s != [] && InFirstOrder(s[1..], rest)
    requires forall i :: 0 <= i < |rest| ==> rest[i] in s[1..] && rest[i] != s[0]
    requires front == [] || front == [s[0]]
    ensures InFirstOrder(s, front + rest)
  {
    var r := front + rest;
    forall i, j | 0 <= i < j < |r|
      ensures r[i] in s && r[j] in s && FirstPos(s, r[i]) < FirstPos(s, r[j])
    {
      var j' := j - |front|;
      assert r[j] == rest[j'];
      TailPos(s, rest[j']);
      if i >= |front| {
        var i' := i - |front|;
        assert r[i] == rest[i'];
        TailPos(s, rest[i']);
      } else {
        assert r[i] == s[0];
      }
    }
  }

  lemma {:induction false} DedupAfterOrder<T>(s: seq<T>, seen: set<T>)
    ensures InFirstOrder(s, DedupAfter(s, seen))
  {
    if s != [] {
      var seen' := if s[0] in seen then seen else seen + {s[0]};
      var rest := DedupAfter(s[1..], seen');
      DedupAfterOrder(s[1..], seen');
      assert forall i :: 0 <= i < |rest| ==> rest[i] in s[1..] && rest[i] !in seen';
      if s[0] in seen {
        InFirstOrderCons(s, rest, []);
        assert [] + rest == rest;
      } else {
        InFirstOrderCons(s, rest, [s[0]]);
      }
    }
  }

  /** `drop_duplicates` keeps the values in the order of their first
      occurrences. */
  lemma DedupOrder<T>(s: seq<T>)
    ensures InFirstOrder(s, Dedup(s))
  {
    DedupAfterOrder(s, {});
  }
}
