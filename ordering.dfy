/** `ORDER BY created_at DESC` over TEXT timestamps: SQLite's BINARY collation
    compares the strings character by character (code point order), and a
    proper prefix sorts first. */
module Ordering {

  /** a sorts before b or equals it. */
  predicate LexLeq(a: string, b: string)
  {
    if a == [] then true
    else if b == [] then false
    else if a[0] != b[0] then a[0] < b[0]
    else LexLeq(a[1..], b[1..])
  }

  lemma {:induction false} LexLeqTotal(a: string, b: string)
    ensures LexLeq(a, b) || LexLeq(b, a)
  {
    if a != [] && b != [] && a[0] == b[0] {
      LexLeqTotal(a[1..], b[1..]);
    }
  }

  lemma {:induction false} LexLeqTransitive(a: string, b: string, c: string)
    requires LexLeq(a, b) && LexLeq(b, c)
    ensures LexLeq(a, c)
  {
    if a != [] && b != [] && c != [] && a[0] == b[0] && b[0] == c[0] {
      LexLeqTransitive(a[1..], b[1..], c[1..]);
    }
  }

  lemma {:induction false} LexLeqAntisymmetric(a: string, b: string)
    requires LexLeq(a, b) && LexLeq(b, a)
    ensures a == b
  {
    if a != [] && b != [] {
      LexLeqAntisymmetric(a[1..], b[1..]);
      assert a == [a[0]] + a[1..];
      assert b == [b[0]] + b[1..];
    }
  }

  /** A result row: its primary key and the row itself. */
  datatype Row<T> = Row(id: nat, rec: T)

  /** Newest first: every row's timestamp is at least that of every later row. */
  ghost predicate SortedDesc<T>(s: seq<Row<T>>, at: T -> string)
  {
    forall i, j :: 0 <= i < j < |s| ==> LexLeq(at(s[j].rec), at(s[i].rec))
  }

  /** No row occurs twice. */
  ghost predicate NoDuplicates<T>(s: seq<Row<T>>)
  {
    forall x :: x in s ==> multiset(s)[x] == 1
  }

  /** Prepending a row that is at least as new as every row of a sorted sequence keeps it sorted. */
  lemma SortedCons<T>(h: Row<T>, t: seq<Row<T>>, at: T -> string)
    requires SortedDesc(t, at)
    requires forall j :: 0 <= j < |t| ==> LexLeq(at(t[j].rec), at(h.rec))
    ensures SortedDesc([h] + t, at)
  {
  }

  /** Puts x in front of the first row of s that is not newer than x. */
  function InsertDesc<T>(x: Row<T>, s: seq<Row<T>>, at: T -> string): (r: seq<Row<T>>)
    requires SortedDesc(s, at)
    ensures SortedDesc(r, at)
    ensures multiset(r) == multiset(s) + multiset{x}
  {
    if s == [] || LexLeq(at(s[0].rec), at(x.rec)) then
      InsertFront(x, s, at);
      [x] + s
    else
      var tail := InsertDesc(x, s[1..], at);
      InsertBehind(x, s, tail, at);
      [s[0]] + tail
  }

  lemma InsertFront<T>(x: Row<T>, s: seq<Row<T>>, at: T -> string)
    requires SortedDesc(s, at)
    requires s == [] || LexLeq(at(s[0].rec), at(x.rec))
    ensures SortedDesc([x] + s, at)
  {
    forall j | 0 <= j < |s| ensures LexLeq(at(s[j].rec), at(x.rec)) {
      if j > 0 { LexLeqTransitive(at(s[j].rec), at(s[0].rec), at(x.rec)); }
    }
    SortedCons(x, s, at);
  }

  lemma InsertBehind<T>(x: Row<T>, s: seq<Row<T>>, tail: seq<Row<T>>, at: T -> string)
    requires SortedDesc(s, at) && s != []
    requires !LexLeq(at(s[0].rec), at(x.rec))
    requires SortedDesc(tail, at)
    requires multiset(tail) == multiset(s[1..]) + multiset{x}
    ensures SortedDesc([s[0]] + tail, at)
    ensures multiset([s[0]] + tail) == multiset(s) + multiset{x}
  {
    assert s == [s[0]] + s[1..];
    LexLeqTotal(at(x.rec), at(s[0].rec));
    forall j | 0 <= j < |tail| ensures LexLeq(at(tail[j].rec), at(s[0].rec)) {
      var y := tail[j];
      assert y in multiset(tail);
      if y != x {
        assert y in multiset(s[1..]);
        var k :| 0 <= k < |s[1..]| && s[1..][k] == y;
        assert s[k + 1] == y;
      }
    }
    SortedCons(s[0], tail, at);
  }

  /** Insertion sort, newest first; rows with equal timestamps keep a fixed order. */
  function SortDesc<T>(s: seq<Row<T>>, at: T -> string): (r: seq<Row<T>>)
    ensures SortedDesc(r, at)
    ensures multiset(r) == multiset(s)
  {
    if s == [] then []
    else
      assert s == [s[0]] + s[1..];
      InsertDesc(s[0], SortDesc(s[1..], at), at)
  }
}
