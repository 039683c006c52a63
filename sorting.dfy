/**
 * Stable sort orders. A row order is a permutation of the row indices; it is
 * stable when rows appear by ascending key (a tuple of values compared
 * lexicographically) and rows with equal keys keep their original relative order.
 * Single-column argsorts, the multi-column index order and the group-by order
 * are all instances, with the key of a row being a 1-tuple or the tuple of its
 * key-column values.
 */
module Sorting {
  import opened Values

  /** A composite key: one value per key column, compared like a Python tuple. */
  type Key = seq<Value>

  predicate TupleLt(x: Key, y: Key)
  {
    if |x| == 0 then |y| > 0
    else if |y| == 0 then false
    else Lt(x[0], y[0]) || (x[0] == y[0] && TupleLt(x[1..], y[1..]))
  }

  lemma {:induction false} TupleLtIrreflexive(x: Key)
    ensures !TupleLt(x, x)
  {
    if |x| > 0 {
      LtIrreflexive(x[0]);
      TupleLtIrreflexive(x[1..]);
    }
  }

  lemma {:induction false} TupleLtTransitive(x: Key, y: Key, z: Key)
    requires TupleLt(x, y) && TupleLt(y, z)
    ensures TupleLt(x, z)
  {
    if |x| > 0 && |y| > 0 && |z| > 0 {
      if Lt(x[0], y[0]) && Lt(y[0], z[0]) {
        LtTransitive(x[0], y[0], z[0]);
      } else if x[0] == y[0] == z[0] {
        TupleLtTransitive(x[1..], y[1..], z[1..]);
      }
    }
  }

  lemma {:induction false} TupleLtTotal(x: Key, y: Key)
    ensures TupleLt(x, y) || x == y || TupleLt(y, x)
  {
    if |x| > 0 && |y| > 0 {
      LtTotal(x[0], y[0]);
      if x[0] == y[0] {
        TupleLtTotal(x[1..], y[1..]);
        if x[1..] == y[1..] {
          assert x == [x[0]] + x[1..] && y == [y[0]] + y[1..];
        }
      }
    }
  }

  lemma TupleLtAsymmetric(x: Key, y: Key)
    requires TupleLt(x, y)
    ensures !TupleLt(y, x) && x != y
  {
    TupleLtIrreflexive(x);
    if TupleLt(y, x) {
      TupleLtTransitive(x, y, x);
    }
  }

  /** Comparing 1-tuples is comparing their single values. */
  lemma TupleLtSingle(a: Value, b: Value)
    ensures TupleLt([a], [b]) <==> Lt(a, b)
  {
    assert [a][1..] == [] && [b][1..] == [];
  }

  /** Prepending one more leading column keeps the order of the rest as tie-break. */
  lemma TupleLtCons(a: Value, x: Key, b: Value, y: Key)
    ensures TupleLt([a] + x, [b] + y) <==> Lt(a, b) || (a == b && TupleLt(x, y))
  {
    assert ([a] + x)[1..] == x && ([b] + y)[1..] == y;
  }

  /** Row `i` comes before row `j`: a smaller key, or an equal key and an earlier row. */
  predicate RowBefore(keys: seq<Key>, i: nat, j: nat)
    requires i < |keys| && j < |keys|
  {
    TupleLt(keys[i], keys[j]) || (keys[i] == keys[j] && i < j)
  }

  lemma RowBeforeIrreflexive(keys: seq<Key>, i: nat)
    requires i < |keys|
    ensures !RowBefore(keys, i, i)
  {
    TupleLtIrreflexive(keys[i]);
  }

  lemma RowBeforeTransitive(keys: seq<Key>, i: nat, j: nat, k: nat)
    requires i < |keys| && j < |keys| && k < |keys|
    requires RowBefore(keys, i, j) && RowBefore(keys, j, k)
    ensures RowBefore(keys, i, k)
  {
    if TupleLt(keys[i], keys[j]) && TupleLt(keys[j], keys[k]) {
      TupleLtTransitive(keys[i], keys[j], keys[k]);
    }
  }

  lemma RowBeforeTotal(keys: seq<Key>, i: nat, j: nat)
    requires i < |keys| && j < |keys| && i != j
    ensures RowBefore(keys, i, j) || RowBefore(keys, j, i)
  {
    TupleLtTotal(keys[i], keys[j]);
  }

  lemma RowBeforeAsymmetric(keys: seq<Key>, i: nat, j: nat)
    requires i < |keys| && j < |keys| && RowBefore(keys, i, j)
    ensures !RowBefore(keys, j, i) && i != j
  {
    RowBeforeIrreflexive(keys, i);
    if RowBefore(keys, j, i) {
      RowBeforeTransitive(keys, i, j, i);
    }
  }

  predicate InRange(r: seq<nat>, n: nat)
  {
    forall p :: 0 <= p < |r| ==> r[p] < n
  }

  predicate Distinct(r: seq<nat>)
  {
    forall p, q :: 0 <= p < q < |r| ==> r[p] != r[q]
  }

  /** `r` lists every row index below `n` exactly once. */
  predicate IsPermutation(r: seq<nat>, n: nat)
  {
    && |r| == n
    && InRange(r, n)
    && (forall i :: 0 <= i < n ==> i in r)
    && Distinct(r)
  }

  /** Every earlier entry of `r` comes before every later one. */
  predicate SortedBy(keys: seq<Key>, r: seq<nat>)
    requires InRange(r, |keys|)
  {
    forall p, q :: 0 <= p < q < |r| ==> RowBefore(keys, r[p], r[q])
  }

  /** `r` is the stable ascending order of the rows whose keys are `keys`. */
  predicate IsStableOrder(keys: seq<Key>, r: seq<nat>)
  {
    IsPermutation(r, |keys|) && SortedBy(keys, r)
  }

  lemma SortedIsDistinct(keys: seq<Key>, r: seq<nat>)
    requires InRange(r, |keys|) && SortedBy(keys, r)
    ensures Distinct(r)
  {
    forall p, q | 0 <= p < q < |r| ensures r[p] != r[q] {
      RowBeforeAsymmetric(keys, r[p], r[q]);
    }
  }

  /** Inserts row `i` into the sorted order `s` after every row that comes before it. */
  function Insert(keys: seq<Key>, s: seq<nat>, i: nat): (r: seq<nat>)
    requires i < |keys| && InRange(s, |keys|) && SortedBy(keys, s) && i !in s
    ensures |r| == |s| + 1 && InRange(r, |keys|)
    ensures forall x :: x in r <==> x in s || x == i
    ensures SortedBy(keys, r)
  {
    if s == [] then [i]
    else if RowBefore(keys, i, s[0]) then
      var r := [i] + s;
      assert SortedBy(keys, r) by {
        forall q | 1 <= q < |r| ensures RowBefore(keys, i, r[q]) {
          if q > 1 {
            RowBeforeTransitive(keys, i, s[0], s[q - 1]);
          }
        }
      }
      r
    else
      var rest := Insert(keys, s[1..], i);
      RowBeforeTotal(keys, i, s[0]);
      var r := [s[0]] + rest;
      assert SortedBy(keys, r) by {
        forall q | 1 <= q < |r| ensures RowBefore(keys, s[0], r[q]) {
          assert r[q] in rest;
          if r[q] != i {
            var q' :| 0 <= q' < |s[1..]| && s[1..][q'] == r[q];
          }
        }
      }
      r
  }

  /** Insertion sort of the rows `0 .. n-1`. */
  function ArgSortPrefix(keys: seq<Key>, n: nat): (r: seq<nat>)
    requires n <= |keys|
    ensures |r| == n && InRange(r, n) && InRange(r, |keys|)
    ensures forall i :: 0 <= i < n ==> i in r
    ensures SortedBy(keys, r)
  {
    if n == 0 then []
    else
      var s := ArgSortPrefix(keys, n - 1);
      assert n - 1 !in s;
      var r := Insert(keys, s, n - 1);
      assert forall p :: 0 <= p < |r| ==> r[p] in s || r[p] == n - 1;
      r
  }

  /** The stable order of all rows: the reference every sort of the model is checked against. */
  function ArgSort(keys: seq<Key>): (r: seq<nat>)
    ensures IsStableOrder(keys, r)
  {
    var r := ArgSortPrefix(keys, |keys|);
    SortedIsDistinct(keys, r);
    r
  }

  lemma HeadIsMember(r: seq<nat>)
    requires |r| > 0
    ensures r[0] in r
  {
  }

  lemma SortedHeadFirst(keys: seq<Key>, r: seq<nat>, x: nat)
    requires InRange(r, |keys|) && SortedBy(keys, r)
    requires x in r && x != r[0]
    ensures x < |keys| && RowBefore(keys, r[0], x)
  {
    var p :| 0 <= p < |r| && r[p] == x;
  }

  /**
   * A stable order is unique: two strictly sorted sequences of the same rows are
   * equal. Hence any stable lexicographic sort yields exactly `ArgSort`.
   */
  lemma {:induction false} SortedUnique(keys: seq<Key>, r1: seq<nat>, r2: seq<nat>)
    requires InRange(r1, |keys|) && InRange(r2, |keys|)
    requires SortedBy(keys, r1) && SortedBy(keys, r2)
    requires forall x :: x in r1 <==> x in r2
    ensures r1 == r2
  {
    if |r1| == 0 {
      if |r2| > 0 {
        HeadIsMember(r2);
        assert false;
      }
    } else {
      assert r1[0] in r2;
      var m :| 0 <= m < |r2| && r2[m] == r1[0];
      if m > 0 {
        RowBeforeAsymmetric(keys, r2[0], r2[m]);
        HeadIsMember(r2);
        SortedHeadFirst(keys, r1, r2[0]);
        assert false;
      }
      forall x ensures x in r1[1..] <==> x in r2[1..] {
        if x in r1[1..] {
          var p :| 1 <= p < |r1| && r1[p] == x;
          RowBeforeAsymmetric(keys, r1[0], r1[p]);
          assert x in r2;
          var q :| 0 <= q < |r2| && r2[q] == x;
          assert q != 0;
        }
        if x in r2[1..] {
          var q :| 1 <= q < |r2| && r2[q] == x;
          RowBeforeAsymmetric(keys, r2[0], r2[q]);
          assert x in r1;
          var p :| 0 <= p < |r1| && r1[p] == x;
          assert p != 0;
        }
      }
      SortedUnique(keys, r1[1..], r2[1..]);
      assert r1 == [r1[0]] + r1[1..] && r2 == [r2[0]] + r2[1..];
    }
  }

  lemma StableOrderUnique(keys: seq<Key>, r: seq<nat>)
    requires IsStableOrder(keys, r)
    ensures r == ArgSort(keys)
  {
    SortedUnique(keys, r, ArgSort(keys));
  }

  // ---- Single columns ----------------------------------------------------------

  /** The 1-tuple keys of a single column. */
  function Singletons(a: seq<Value>): (keys: seq<Key>)
    ensures |keys| == |a|
  {
    seq(|a|, i requires 0 <= i < |a| => [a[i]])
  }

  /** The column `a` read in the order `s`. */
  function Permute(a: seq<Value>, s: seq<nat>): (b: seq<Value>)
    requires InRange(s, |a|)
    ensures |b| == |s|
  {
    seq(|s|, p requires 0 <= p < |s| => a[s[p]])
  }

  /** numpy's `argsort(a, kind="stable")`. */
  function StableArgsort(a: seq<Value>): (r: seq<nat>)
    ensures IsStableOrder(Singletons(a), r)
    ensures |r| == |a| && InRange(r, |a|)
  {
    ArgSort(Singletons(a))
  }

  /** Read through a stable argsort, a column is ascending, and equal values keep their row order. */
  lemma StableArgsortOrders(a: seq<Value>, r: seq<nat>, p: nat, q: nat)
    requires IsStableOrder(Singletons(a), r) && p < q < |r|
    ensures Le(a[r[p]], a[r[q]])
    ensures a[r[p]] == a[r[q]] ==> r[p] < r[q]
  {
    assert RowBefore(Singletons(a), r[p], r[q]);
    TupleLtSingle(a[r[p]], a[r[q]]);
    LtIrreflexive(a[r[p]]);
  }

  // ---- Composition -------------------------------------------------------------

  /** Row keys with column `c` put in front as the new leading key. */
  function Prepend(c: seq<Value>, keys: seq<Key>): (r: seq<Key>)
    requires |c| == |keys|
    ensures |r| == |keys|
  {
    seq(|keys|, i requires 0 <= i < |keys| => [c[i]] + keys[i])
  }

  function Compose(s: seq<nat>, t: seq<nat>): (r: seq<nat>)
    requires InRange(t, |s|)
    ensures |r| == |t|
  {
    seq(|t|, p requires 0 <= p < |t| => s[t[p]])
  }

  /**
   * The step of a multi-key sort: re-sorting an order `s` stably by column `c`
   * makes `c` the leading key and keeps the order of `s` among rows equal in `c`.
   */
  lemma ComposeStable(keys: seq<Key>, c: seq<Value>, s: seq<nat>, t: seq<nat>)
    requires |c| == |keys|
    requires IsStableOrder(keys, s)
    requires IsStableOrder(Singletons(Permute(c, s)), t)
    ensures IsStableOrder(Prepend(c, keys), Compose(s, t))
  {
    var n := |keys|;
    var u := Compose(s, t);
    var pk := Prepend(c, keys);
    var cs := Permute(c, s);
    assert InRange(u, n);
    forall p, q | 0 <= p < q < |u| ensures RowBefore(pk, u[p], u[q]) {
      var i, j := t[p], t[q];
      assert RowBefore(Singletons(cs), i, j);
      TupleLtSingle(cs[i], cs[j]);
      TupleLtCons(c[s[i]], keys[s[i]], c[s[j]], keys[s[j]]);
      if !Lt(cs[i], cs[j]) {
        assert i < j;
        assert RowBefore(keys, s[i], s[j]);
      }
    }
    forall x | 0 <= x < n ensures x in u {
      assert x in s;
      var q :| 0 <= q < |s| && s[q] == x;
      assert q < |Singletons(cs)| && q in t;
      var p :| 0 <= p < |t| && t[p] == q;
      assert u[p] == x;
    }
  }
}
