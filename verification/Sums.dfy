/** Sums over the rows of a table. */
module Sums {

  function Total<T>(rows: seq<T>, f: T -> int): int {
    if rows == [] then 0 else Total(rows[..|rows| - 1], f) + f(rows[|rows| - 1])
  }

  lemma {:induction false} TotalAdds<T>(rows: seq<T>, f: T -> int, g: T -> int, h: T -> int)
    requires forall i | 0 <= i < |rows| :: f(rows[i]) == g(rows[i]) + h(rows[i])
    ensures Total(rows, f) == Total(rows, g) + Total(rows, h)
  {
    if rows != [] {
      var front := rows[..|rows| - 1];
      assert forall i | 0 <= i < |front| :: front[i] == rows[i];
      TotalAdds(front, f, g, h);
    }
  }

  lemma TotalStep<T>(rows: seq<T>, i: nat, f: T -> int)
    requires i < |rows|
    ensures Total(rows[..i + 1], f) == Total(rows[..i], f) + f(rows[i])
  {
    assert rows[..i + 1][..i] == rows[..i];
  }

  lemma {:induction false} TotalSame<T>(rows: seq<T>, f: T -> int, g: T -> int)
    requires forall i | 0 <= i < |rows| :: f(rows[i]) == g(rows[i])
    ensures Total(rows, f) == Total(rows, g)
  {
    if rows != [] {
      var front := rows[..|rows| - 1];
      assert forall i | 0 <= i < |front| :: front[i] == rows[i];
      TotalSame(front, f, g);
    }
  }

  /** A sum of terms that are never positive is zero exactly when every term is. */
  lemma {:induction false} TotalOfNonPositive<T>(rows: seq<T>, f: T -> int)
    requires forall i | 0 <= i < |rows| :: f(rows[i]) <= 0
    ensures Total(rows, f) <= 0
    ensures Total(rows, f) == 0 <==> forall i | 0 <= i < |rows| :: f(rows[i]) == 0
  {
    if rows != [] {
      var n := |rows| - 1;
      var front := rows[..n];
      assert forall i | 0 <= i < n :: front[i] == rows[i];
      TotalOfNonPositive(front, f);
      if Total(rows, f) == 0 {
        forall i | 0 <= i < |rows| ensures f(rows[i]) == 0 {
          if i < n { assert f(front[i]) == 0; }
        }
      }
    }
  }

  /** Every member of every row's set, told apart by the row it comes from. */
  ghost function Pairs<T, K>(rows: seq<T>, part: T -> set<K>): set<(int, K)> {
    set i, k | 0 <= i < |rows| && k in part(rows[i]) :: (i, k)
  }

  /** Adding up the sizes of the rows' sets counts those pairs. */
  lemma {:induction false} PairsCount<T, K>(rows: seq<T>, f: T -> int, part: T -> set<K>)
    requires forall i | 0 <= i < |rows| :: f(rows[i]) == |part(rows[i])|
    ensures Total(rows, f) == |Pairs(rows, part)|
  {
    if rows == [] {
      assert Pairs(rows, part) == {};
    } else {
      var n := |rows| - 1;
      var front, last := rows[..n], part(rows[n]);
      assert forall i | 0 <= i < n :: front[i] == rows[i];
      PairsCount(front, f, part);
      var more := set k | k in last :: (n, k);
      SameSize(n, last, more);
      assert Pairs(rows, part) == Pairs(front, part) + more;
    }
  }

  lemma {:induction false} SameSize<K>(n: int, ks: set<K>, more: set<(int, K)>)
    requires more == set k | k in ks :: (n, k)
    ensures |more| == |ks|
  {
    if ks != {} {
      var k :| k in ks;
      SameSize(n, ks - {k}, more - {(n, k)});
    }
  }
}
