/** The SELECT statements of the listing handlers: a filter over one table,
    newest first, optionally cut to the first `LIMIT` rows. */
module Queries {
  import opened RowIds
  import opened Ordering

  /** The rows of m whose id is below n and that satisfy keep, in id order. */
  function RowsBelow<T>(m: map<nat, T>, keep: T -> bool, n: nat): (r: seq<Row<T>>)
    ensures forall x :: x in r ==> x.id < n && x.id in m && x.rec == m[x.id] && keep(x.rec)
    ensures forall id :: id < n && id in m && keep(m[id]) ==> Row(id, m[id]) in r
    ensures NoDuplicates(r)
  {
    if n == 0 then []
    else
      var prev := RowsBelow(m, keep, n - 1);
      if n - 1 in m && keep(m[n - 1]) then
        var row := Row(n - 1, m[n - 1]);
        assert row !in prev;
        prev + [row]
      else prev
  }

  /** `SELECT * FROM m WHERE keep ORDER BY at DESC`. */
  function Select<T>(m: map<nat, T>, keep: T -> bool, at: T -> string): (r: seq<Row<T>>)
    ensures forall x :: x in r ==> x.id in m && x.rec == m[x.id] && keep(x.rec)
    ensures forall id :: id in m && keep(m[id]) ==> Row(id, m[id]) in r
    ensures NoDuplicates(r)
    ensures SortedDesc(r, at)
  {
    var rows := RowsBelow(m, keep, NextRowId(m.Keys));
    var r := SortDesc(rows, at);
    assert forall x :: x in r ==> x in rows by {
      forall x | x in r ensures x in rows { assert x in multiset(r); }
    }
    assert forall x :: x in rows ==> x in r by {
      forall x | x in rows ensures x in r { assert x in multiset(rows); }
    }
    r
  }

  /** Two rows of a SELECT result never share a primary key. */
  lemma DistinctIds<T>(m: map<nat, T>, r: seq<Row<T>>)
    requires forall x :: x in r ==> x.id in m && x.rec == m[x.id]
    requires NoDuplicates(r)
    ensures forall i, j :: 0 <= i < j < |r| ==> r[i].id != r[j].id
  {
    forall i, j | 0 <= i < j < |r| ensures r[i].id != r[j].id {
      if r[i] == r[j] { TwiceCounted(r, i, j); }
    }
  }

  lemma TwiceCounted<T>(r: seq<Row<T>>, i: nat, j: nat)
    requires i < j < |r| && r[i] == r[j]
    ensures multiset(r)[r[i]] >= 2
  {
    assert r == r[..i] + [r[i]] + r[i + 1..j] + [r[j]] + r[j + 1..];
  }

  /** `LIMIT n` on an ordered result. */
  function Limit<T>(s: seq<Row<T>>, n: nat): (r: seq<Row<T>>)
    ensures |r| <= n && r <= s
    ensures |s| > n ==> |r| == n
    ensures |s| <= n ==> r == s
  {
    if |s| <= n then s else s[..n]
  }

  /** A table row that `LIMIT n` cuts from a sorted result holding it is no newer
      than any row it keeps, and rows are cut only when n rows are kept. */
  lemma LimitOfSorted<T>(m: map<nat, T>, s: seq<Row<T>>, n: nat, at: T -> string)
    requires SortedDesc(s, at)
    requires forall id :: id in m ==> Row(id, m[id]) in s
    ensures forall id :: id in m && Row(id, m[id]) !in Limit(s, n) ==>
              |Limit(s, n)| == n && forall j :: 0 <= j < n ==> LexLeq(at(m[id]), at(Limit(s, n)[j].rec))
  {
  }

  /** `SELECT * FROM m ORDER BY at DESC LIMIT n`. */
  function Newest<T>(m: map<nat, T>, at: T -> string, n: nat): (r: seq<Row<T>>)
    ensures |r| <= n
    ensures forall x :: x in r ==> x.id in m && x.rec == m[x.id]
    ensures forall i, j :: 0 <= i < j < |r| ==> r[i].id != r[j].id
    ensures SortedDesc(r, at)
    ensures forall id :: id in m && Row(id, m[id]) !in r ==>
              |r| == n && forall j :: 0 <= j < n ==> LexLeq(at(m[id]), at(r[j].rec))
  {
    var all := Select(m, (x: T) => true, at);
    DistinctIds(m, all);
    LimitOfSorted(m, all, n, at);
    Limit(all, n)
  }
}
