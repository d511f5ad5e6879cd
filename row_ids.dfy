/** Row ids as SQLite assigns them to an INTEGER PRIMARY KEY when the INSERT
    gives none: one more than the largest id in the table, 1 for an empty table. */
module RowIds {

  lemma {:induction false} HasMaximum(s: set<nat>)
    requires s != {}
    ensures exists m :: m in s && forall k :: k in s ==> k <= m
  {
    var x :| x in s;
    if s != {x} {
      HasMaximum(s - {x});
      var m :| m in s - {x} && forall k :: k in s - {x} ==> k <= m;
      var top := if x > m then x else m;
      forall k | k in s ensures k <= top {
        if k != x { assert k in s - {x}; }
      }
    } else {
      assert forall k :: k in s ==> k <= x;
    }
  }

  /** The largest id of a non-empty set of ids. */
  function MaxKey(s: set<nat>): (m: nat)
    requires s != {}
    ensures m in s
    ensures forall k :: k in s ==> k <= m
  {
    HasMaximum(s);
    var m :| m in s && forall k :: k in s ==> k <= m;
    m
  }

  /** The id the next INSERT into a table with ids `keys` receives (`lastrowid`). */
  function NextRowId(keys: set<nat>): (id: nat)
    ensures id >= 1 && id !in keys
    ensures forall k :: k in keys ==> k < id
    ensures keys == {} ==> id == 1
    ensures keys != {} ==> id - 1 in keys
  {
    if keys == {} then 1 else MaxKey(keys) + 1
  }
}
