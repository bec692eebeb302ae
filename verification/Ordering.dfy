/** `ORDER BY` over the rows of a table: rows with equal keys keep the table's own order. */
module Ordering {
  import opened Sums

  ghost predicate SortedBy<T>(rows: seq<T>, key: T -> int) {
    forall i, j | 0 <= i < j < |rows| :: key(rows[i]) <= key(rows[j])
  }

  /** Put a row behind every row whose key is no greater. */
  function Insert<T>(rows: seq<T>, x: T, key: T -> int): seq<T> {
    if rows == [] || key(rows[|rows| - 1]) <= key(x) then rows + [x]
    else Insert(rows[..|rows| - 1], x, key) + [rows[|rows| - 1]]
  }

  function OrderBy<T>(rows: seq<T>, key: T -> int): seq<T> {
    if rows == [] then [] else Insert(OrderBy(rows[..|rows| - 1], key), rows[|rows| - 1], key)
  }

  lemma {:induction false} InsertIsAll<T>(rows: seq<T>, x: T, key: T -> int)
    ensures multiset(Insert(rows, x, key)) == multiset(rows) + multiset{x}
  {
    var n := |rows| - 1;
    if rows != [] && key(rows[n]) > key(x) {
      InsertIsAll(rows[..n], x, key);
      assert rows == rows[..n] + [rows[n]];
    }
  }

  lemma {:induction false} InsertSorts<T>(rows: seq<T>, x: T, key: T -> int)
    requires SortedBy(rows, key)
    ensures SortedBy(Insert(rows, x, key), key)
  {
    var n := |rows| - 1;
    if rows != [] && key(rows[n]) > key(x) {
      var front := Insert(rows[..n], x, key);
      InsertSorts(rows[..n], x, key);
      InsertIsAll(rows[..n], x, key);
      forall i | 0 <= i < |front| ensures key(front[i]) <= key(rows[n]) {
        assert front[i] in multiset(front);
        assert front[i] == x || front[i] in rows[..n];
      }
    }
  }

  lemma {:induction false} InsertAdds<T>(rows: seq<T>, x: T, key: T -> int, f: T -> int)
    ensures Total(Insert(rows, x, key), f) == Total(rows, f) + f(x)
  {
    var n := |rows| - 1;
    if rows == [] || key(rows[n]) <= key(x) {
      assert (rows + [x])[..|rows|] == rows;
    } else {
      var front := Insert(rows[..n], x, key);
      InsertAdds(rows[..n], x, key, f);
      assert (front + [rows[n]])[..|front|] == front;
    }
  }

  /** The rows in the order of their keys: the same rows, in order, with the same sums. */
  lemma {:induction false} OrderByOrders<T>(rows: seq<T>, key: T -> int)
    ensures SortedBy(OrderBy(rows, key), key)
    ensures multiset(OrderBy(rows, key)) == multiset(rows)
    ensures |OrderBy(rows, key)| == |rows|
  {
    if rows != [] {
      var n := |rows| - 1;
      OrderByOrders(rows[..n], key);
      InsertSorts(OrderBy(rows[..n], key), rows[n], key);
      InsertIsAll(OrderBy(rows[..n], key), rows[n], key);
      assert rows == rows[..n] + [rows[n]];
      assert |multiset(OrderBy(rows, key))| == |multiset(rows)|;
    }
  }

  lemma {:induction false} OrderByTotals<T>(rows: seq<T>, key: T -> int, f: T -> int)
    ensures Total(OrderBy(rows, key), f) == Total(rows, f)
  {
    if rows != [] {
      var n := |rows| - 1;
      OrderByTotals(rows[..n], key, f);
      InsertAdds(OrderBy(rows[..n], key), rows[n], key, f);
    }
  }
}
