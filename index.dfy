/**
 * `Index`: named key columns of equal length whose rows are unique. The index
 * sorts its rows by the columns together, rejects a repeated row key, and
 * finds the row of a key by narrowing a range of the sorted order column by
 * column with binary searches.
 */
module Indexes {
  import opened Wrappers
  import opened Values
  import opened Errors
  import opened Sorting
  import opened Search
  import opened ODict
  import opened Columns
  import PyLib

  // ---- Row keys of a set of columns ------------------------------------------

  /** Every column has `n` elements. */
  predicate Rectangular(arrs: seq<seq<Value>>, n: nat)
  {
    forall j :: 0 <= j < |arrs| ==> |arrs[j]| == n
  }

  /** The key of row `i`: its value in each column, in column order (`zip(*arrs)`). */
  function RowKey(arrs: seq<seq<Value>>, n: nat, i: nat): (k: Key)
    requires Rectangular(arrs, n) && i < n
    ensures |k| == |arrs|
    ensures forall j :: 0 <= j < |arrs| ==> k[j] == arrs[j][i]
  {
    seq(|arrs|, j requires 0 <= j < |arrs| => arrs[j][i])
  }

  /** The keys of all rows, in row order. */
  function RowKeys(arrs: seq<seq<Value>>, n: nat): (keys: seq<Key>)
    requires Rectangular(arrs, n)
    ensures |keys| == n
    ensures forall i :: 0 <= i < n ==> keys[i] == RowKey(arrs, n, i)
  {
    seq(n, i requires 0 <= i < n => RowKey(arrs, n, i))
  }

  /** No two rows have the same key. */
  predicate Unique(keys: seq<Key>)
  {
    forall i, j :: 0 <= i < j < |keys| ==> keys[i] != keys[j]
  }

  lemma RowKeysLast(arrs: seq<seq<Value>>, n: nat)
    requires |arrs| >= 1 && Rectangular(arrs, n)
    ensures RowKeys(arrs[|arrs| - 1..], n) == Singletons(arrs[|arrs| - 1])
  {
    var l, r := RowKeys(arrs[|arrs| - 1..], n), Singletons(arrs[|arrs| - 1]);
    forall i | 0 <= i < n ensures l[i] == r[i] {
      assert l[i] == [arrs[|arrs| - 1][i]];
    }
  }

  lemma RowKeysCons(arrs: seq<seq<Value>>, n: nat, j: nat)
    requires j < |arrs| && Rectangular(arrs, n)
    ensures RowKeys(arrs[j..], n) == Prepend(arrs[j], RowKeys(arrs[j + 1..], n))
  {
    var l, r := RowKeys(arrs[j..], n), Prepend(arrs[j], RowKeys(arrs[j + 1..], n));
    forall i | 0 <= i < n ensures l[i] == r[i] {
      assert l[i] == [arrs[j][i]] + RowKey(arrs[j + 1..], n, i);
    }
  }

  // ---- The multi-column sort ---------------------------------------------------

  /**
   * `Index.sorter`: starting from the last column's stable argsort, re-sort
   * stably by each earlier column in turn. The result is the stable ascending
   * order of the row keys, and so the one order `ArgSort` defines.
   */
  method MultiSort(arrs: seq<seq<Value>>, n: nat, last: seq<nat>) returns (s: seq<nat>)
    requires |arrs| >= 1 && Rectangular(arrs, n)
    requires IsStableOrder(Singletons(arrs[|arrs| - 1]), last)
    ensures IsStableOrder(RowKeys(arrs, n), s)
    ensures s == ArgSort(RowKeys(arrs, n))
  {
    var j := |arrs| - 1;
    s := last;
    RowKeysLast(arrs, n);
    while j > 0
      invariant 0 <= j < |arrs|
      invariant IsStableOrder(RowKeys(arrs[j..], n), s)
    {
      j := j - 1;
      var t := StableArgsort(Permute(arrs[j], s));
      ComposeStable(RowKeys(arrs[j + 1..], n), arrs[j], s, t);
      RowKeysCons(arrs, n, j);
      s := Compose(s, t);
    }
    assert arrs[0..] == arrs;
    StableOrderUnique(RowKeys(arrs, n), s);
  }

  // ---- The uniqueness scan -------------------------------------------------------

  /** Sorted positions `p` and `p + 1` agree in the first `j` columns. */
  predicate Tie(arrs: seq<seq<Value>>, n: nat, s: seq<nat>, p: nat, j: nat)
    requires Rectangular(arrs, n) && InRange(s, n) && p + 1 < |s| && j <= |arrs|
  {
    forall c :: 0 <= c < j ==> arrs[c][s[p]] == arrs[c][s[p + 1]]
  }

  predicate Increasing(m: seq<nat>)
  {
    forall a, b :: 0 <= a < b < |m| ==> m[a] < m[b]
  }

  lemma TieIsEqualKeys(arrs: seq<seq<Value>>, n: nat, s: seq<nat>, p: nat)
    requires Rectangular(arrs, n) && InRange(s, n) && p + 1 < |s|
    ensures Tie(arrs, n, s, p, |arrs|) <==> RowKey(arrs, n, s[p]) == RowKey(arrs, n, s[p + 1])
  {
    if Tie(arrs, n, s, p, |arrs|) {
      assert RowKey(arrs, n, s[p]) == RowKey(arrs, n, s[p + 1]);
    }
  }

  /** Keeps the positions of `m` at which column `j` ties. */
  method KeepTies(arrs: seq<seq<Value>>, n: nat, s: seq<nat>, m: seq<nat>, j: nat) returns (kept: seq<nat>)
    requires Rectangular(arrs, n) && InRange(s, n) && j < |arrs|
    requires Increasing(m) && forall a :: 0 <= a < |m| ==> m[a] + 1 < |s|
    ensures Increasing(kept) && forall a :: 0 <= a < |kept| ==> kept[a] + 1 < |s|
    ensures forall p :: 0 <= p && p + 1 < |s| ==>
      (p in kept <==> p in m && arrs[j][s[p]] == arrs[j][s[p + 1]])
  {
    kept := [];
    for q := 0 to |m|
      invariant Increasing(kept)
      invariant forall a :: 0 <= a < |kept| ==> kept[a] + 1 < |s|
      invariant forall a :: 0 <= a < |kept| ==> exists b :: 0 <= b < q && m[b] == kept[a]
      invariant forall p :: 0 <= p && p + 1 < |s| ==>
        (p in kept <==> p in m[..q] && arrs[j][s[p]] == arrs[j][s[p + 1]])
    {
      var p := m[q];
      if arrs[j][s[p]] == arrs[j][s[p + 1]] {
        kept := kept + [p];
      }
      assert m[..q + 1] == m[..q] + [p];
    }
    assert m[..|m|] == m;
  }

  /**
   * The uniqueness scan of `Index.__init__`: starting from every sorted
   * position, keep those whose row ties with the next one column after
   * column; the first survivor, if any, is the first tie in sorted order.
   */
  method FirstTie(arrs: seq<seq<Value>>, n: nat, s: seq<nat>) returns (r: Option<nat>)
    requires Rectangular(arrs, n) && |s| == n && InRange(s, n)
    ensures r.Some? ==> r.value + 1 < n && RowKey(arrs, n, s[r.value]) == RowKey(arrs, n, s[r.value + 1])
    ensures r.Some? ==> forall p :: 0 <= p < r.value ==> RowKey(arrs, n, s[p]) != RowKey(arrs, n, s[p + 1])
    ensures r.None? ==> forall p :: 0 <= p && p + 1 < n ==> RowKey(arrs, n, s[p]) != RowKey(arrs, n, s[p + 1])
  {
    var m: seq<nat> := seq(if n > 0 then n - 1 else 0, p requires p >= 0 => p);
    forall p | 0 <= p && p + 1 < n ensures p in m {
      assert m[p] == p;
    }
    for j := 0 to |arrs|
      invariant Increasing(m) && forall a :: 0 <= a < |m| ==> m[a] + 1 < n
      invariant forall p :: 0 <= p && p + 1 < n ==> (p in m <==> Tie(arrs, n, s, p, j))
    {
      m := KeepTies(arrs, n, s, m, j);
    }
    forall p | 0 <= p && p + 1 < n {
      TieIsEqualKeys(arrs, n, s, p);
    }
    if |m| > 0 {
      r := Some(m[0]);
      assert forall a :: 0 <= a < |m| ==> m[0] <= m[a];
    } else {
      r := None;
    }
  }

  /** In a stable order, equal keys at positions `a < b` make position `a` tie with `a + 1`. */
  lemma SortedTie(keys: seq<Key>, s: seq<nat>, a: nat, b: nat)
    requires IsStableOrder(keys, s) && a < b < |s|
    requires keys[s[a]] == keys[s[b]]
    ensures keys[s[a]] == keys[s[a + 1]]
  {
    var ka, k1 := keys[s[a]], keys[s[a + 1]];
    assert RowBefore(keys, s[a], s[a + 1]);
    if a + 1 < b {
      assert RowBefore(keys, s[a + 1], s[b]);
      if TupleLt(ka, k1) {
        TupleLtAsymmetric(ka, k1);
      }
    }
  }

  /** In a stable order, a row that comes before another sits at an earlier position. */
  lemma PositionsFollowOrder(keys: seq<Key>, s: seq<nat>, a: nat, b: nat)
    requires IsStableOrder(keys, s) && a < |s| && b < |s|
    requires RowBefore(keys, s[a], s[b])
    ensures a < b
  {
    RowBeforeAsymmetric(keys, s[a], s[b]);
  }

  /** Where row `i` sits in the order `s`. */
  lemma PositionOf(s: seq<nat>, n: nat, i: nat) returns (p: nat)
    requires IsPermutation(s, n) && i < n
    ensures p < |s| && s[p] == i
  {
    assert i in s;
    p :| 0 <= p < |s| && s[p] == i;
  }

  /** A key is repeated exactly when the stable order has two neighbours with equal keys. */
  lemma {:induction false} TieIffRepeated(keys: seq<Key>, s: seq<nat>)
    requires IsStableOrder(keys, s)
    ensures (exists p :: 0 <= p && p + 1 < |s| && keys[s[p]] == keys[s[p + 1]]) <==> !Unique(keys)
  {
    if !Unique(keys) {
      var i, j :| 0 <= i < j < |keys| && keys[i] == keys[j];
      var a := PositionOf(s, |keys|, i);
      var b := PositionOf(s, |keys|, j);
      PositionsFollowOrder(keys, s, a, b);
      SortedTie(keys, s, a, b);
    }
    if exists p :: 0 <= p && p + 1 < |s| && keys[s[p]] == keys[s[p + 1]] {
      var p :| 0 <= p && p + 1 < |s| && keys[s[p]] == keys[s[p + 1]];
      var i, j := s[p], s[p + 1];
      if i < j {
        assert keys[i] == keys[j];
      } else {
        assert keys[j] == keys[i];
      }
    }
  }

  /** `k` occurs as the key of two rows, and no repeated key is smaller. */
  predicate SmallestRepeated(keys: seq<Key>, k: Key)
  {
    && (exists i, j :: 0 <= i < j < |keys| && keys[i] == k && keys[j] == k)
    && (forall i, j :: 0 <= i < j < |keys| && keys[i] == keys[j] ==> !TupleLt(keys[i], k))
  }

  /** The first tie in the stable order is at the smallest repeated key, which `Index` reports. */
  lemma {:induction false} FirstTieIsSmallest(keys: seq<Key>, s: seq<nat>, p: nat)
    requires IsStableOrder(keys, s) && p + 1 < |s|
    requires keys[s[p]] == keys[s[p + 1]]
    requires forall q :: 0 <= q < p ==> keys[s[q]] != keys[s[q + 1]]
    ensures SmallestRepeated(keys, keys[s[p]])
  {
    var k := keys[s[p]];
    if s[p] < s[p + 1] {
      assert keys[s[p]] == k && keys[s[p + 1]] == k;
    } else {
      assert keys[s[p + 1]] == k && keys[s[p]] == k;
    }
    forall i, j | 0 <= i < j < |keys| && keys[i] == keys[j] ensures !TupleLt(keys[i], k) {
      var a := PositionOf(s, |keys|, i);
      var b := PositionOf(s, |keys|, j);
      PositionsFollowOrder(keys, s, a, b);
      SortedTie(keys, s, a, b);
      assert p <= a;
      TupleLtIrreflexive(k);
      if p < a {
        assert RowBefore(keys, s[p], s[a]);
        if TupleLt(k, keys[i]) {
          TupleLtAsymmetric(k, keys[i]);
        }
      }
    }
  }

  /**
   * The uniqueness check of `Index.__init__`: the key at the first tie of the
   * sorted order, which is the smallest repeated key, or nothing when the
   * keys are unique.
   */
  method CheckUnique(arrs: seq<seq<Value>>, n: nat, s: seq<nat>) returns (r: Option<Key>)
    requires Rectangular(arrs, n) && IsStableOrder(RowKeys(arrs, n), s)
    ensures r.None? <==> Unique(RowKeys(arrs, n))
    ensures r.Some? ==> SmallestRepeated(RowKeys(arrs, n), r.value)
  {
    var tie := FirstTie(arrs, n, s);
    ghost var keys := RowKeys(arrs, n);
    TieIffRepeated(keys, s);
    if tie.Some? {
      FirstTieIsSmallest(keys, s, tie.value);
      r := Some(RowKey(arrs, n, s[tie.value]));
    } else {
      r := None;
    }
  }

  // ---- Looking up a key ------------------------------------------------------------

  /** Every row key has `w` components. */
  predicate Width(keys: seq<Key>, w: nat)
  {
    forall i :: 0 <= i < |keys| ==> |keys[i]| == w
  }

  /** The first `m` components of the row key `k` are those of `ks`. */
  predicate PrefixMatch(k: Key, ks: Key, m: nat)
    requires m <= |k| && m <= |ks|
  {
    forall c :: 0 <= c < m ==> k[c] == ks[c]
  }

  /** The first row whose key starts with the first `m` components of `ks`, or `|keys|`. */
  function FirstMatch(keys: seq<Key>, ks: Key, m: nat, w: nat): (i: nat)
    requires Width(keys, w) && m <= w && m <= |ks|
    ensures i <= |keys|
    ensures i < |keys| ==> PrefixMatch(keys[i], ks, m)
    ensures forall r :: 0 <= r < i ==> !PrefixMatch(keys[r], ks, m)
    decreases |keys|
  {
    if keys == [] then 0
    else if PrefixMatch(keys[0], ks, m) then 0
    else 1 + FirstMatch(keys[1..], ks, m, w)
  }

  function Min(a: nat, b: nat): nat
  {
    if a < b then a else b
  }

  /**
   * The outcome of `Index.rows[key]` for the tuple `ks` over rows with keys
   * `keys`, stated without a search. The components are matched against the
   * columns in step, so a key of the wrong length still fails with `KeyError`
   * when no row matches the part that was compared, and otherwise with the
   * `ValueError` of the strict `zip`.
   */
  function Lookup(keys: seq<Key>, ks: Key, ncols: nat): (r: Result<nat, Error>)
    requires Width(keys, ncols) && ncols >= 1
    ensures r.Ok? ==> r.value < |keys| && keys[r.value] == ks
  {
    var m := Min(|ks|, ncols);
    var i := FirstMatch(keys, ks, m, ncols);
    if m > 0 && i == |keys| then Err(KeyError(ks))
    else if |ks| > ncols then Err(ValueError("zip() argument 2 is shorter than argument 1"))
    else if |ks| < ncols then Err(ValueError("zip() argument 2 is longer than argument 1"))
    else
      assert keys[i] == ks by { assert |keys[i]| == |ks|; }
      Ok(i)
  }

  /** Every row is found under its own key. */
  lemma LookupFinds(keys: seq<Key>, ncols: nat, i: nat)
    requires Width(keys, ncols) && ncols >= 1 && Unique(keys) && i < |keys|
    ensures Lookup(keys, keys[i], ncols) == Ok(i)
  {
    var f := FirstMatch(keys, keys[i], ncols, ncols);
    assert PrefixMatch(keys[i], keys[i], ncols);
    assert f <= i;
    assert keys[f] == keys[i] by { assert |keys[f]| == |keys[i]|; }
  }

  /** A key of the right length that no row has raises `KeyError`. */
  lemma LookupMissing(keys: seq<Key>, ks: Key, ncols: nat)
    requires Width(keys, ncols) && ncols >= 1 && |ks| == ncols
    requires forall i :: 0 <= i < |keys| ==> keys[i] != ks
    ensures Lookup(keys, ks, ncols) == Err(KeyError(ks))
  {
    forall r | 0 <= r < |keys| ensures !PrefixMatch(keys[r], ks, ncols) {
      FullPrefix(keys[r], ks);
    }
  }

  /** Matching every component of a key of the same length is equality. */
  lemma FullPrefix(k: Key, ks: Key)
    requires |k| == |ks|
    ensures PrefixMatch(k, ks, |ks|) <==> k == ks
  {
    if PrefixMatch(k, ks, |ks|) {
      assert k == ks;
    }
  }

  /**
   * A key of the wrong length always fails: with `KeyError` exactly when it
   * has components and no row matches all of those that were compared.
   */
  lemma LookupArity(keys: seq<Key>, ks: Key, ncols: nat)
    requires Width(keys, ncols) && ncols >= 1 && |ks| != ncols
    ensures Lookup(keys, ks, ncols).Err?
    ensures Lookup(keys, ks, ncols).error.KeyError? <==>
      var m := Min(|ks|, ncols);
      m > 0 && forall i :: 0 <= i < |keys| ==> !PrefixMatch(keys[i], ks, m)
  {
  }

  /** No row matches the first `j + 1` components, so the lookup raises `KeyError`. */
  lemma LookupNoPrefix(keys: seq<Key>, ks: Key, ncols: nat, j: nat)
    requires Width(keys, ncols) && ncols >= 1 && j < Min(|ks|, ncols)
    requires forall r :: 0 <= r < |keys| ==> !PrefixMatch(keys[r], ks, j + 1)
    ensures Lookup(keys, ks, ncols) == Err(KeyError(ks))
  {
    var m := Min(|ks|, ncols);
    forall r | 0 <= r < |keys| ensures !PrefixMatch(keys[r], ks, m) {
      assert !PrefixMatch(keys[r], ks, j + 1);
    }
  }

  /** Row `row` matches every compared component, and the key has the wrong length. */
  lemma LookupWrongLength(keys: seq<Key>, ks: Key, ncols: nat, row: nat)
    requires Width(keys, ncols) && ncols >= 1 && |ks| != ncols && row < |keys|
    requires PrefixMatch(keys[row], ks, Min(|ks|, ncols))
    ensures Lookup(keys, ks, ncols).Err? && Lookup(keys, ks, ncols).error.ValueError?
  {
    var f := FirstMatch(keys, ks, Min(|ks|, ncols), ncols);
    assert f <= row;
  }

  /** Row `row` has the key `ks`, which is of the right length. */
  lemma LookupFound(keys: seq<Key>, ks: Key, ncols: nat, row: nat)
    requires Width(keys, ncols) && ncols >= 1 && |ks| == ncols && Unique(keys) && row < |keys|
    requires PrefixMatch(keys[row], ks, ncols)
    ensures Lookup(keys, ks, ncols) == Ok(row)
  {
    assert keys[row] == ks by { assert |keys[row]| == |ks|; }
    LookupFinds(keys, ncols, row);
  }

  /** A tuple order with equal first `j` components orders the component `j`. */
  lemma {:induction false} TupleLtPrefix(x: Key, y: Key, j: nat)
    requires TupleLt(x, y) && j < |x| && j < |y|
    requires forall c :: 0 <= c < j ==> x[c] == y[c]
    ensures Le(x[j], y[j])
  {
    if j > 0 {
      LtIrreflexive(x[0]);
      TupleLtPrefix(x[1..], y[1..], j - 1);
      assert x[1..][j - 1] == x[j] && y[1..][j - 1] == y[j];
    }
  }

  /** Within a range of the stable order whose rows agree on the first `j` columns, column `j` is ascending. */
  lemma RangeAscending(arrs: seq<seq<Value>>, n: nat, s: seq<nat>, lo: nat, hi: nat, ks: Key, j: nat)
    requires Rectangular(arrs, n) && IsStableOrder(RowKeys(arrs, n), s)
    requires lo <= hi <= n && j < |arrs| && j <= |ks|
    requires forall p :: lo <= p < hi ==> PrefixMatch(RowKeys(arrs, n)[s[p]], ks, j)
    ensures InRange(s[lo..hi], |arrs[j]|)
    ensures Ascending(Permute(arrs[j], s[lo..hi]))
  {
    var keys := RowKeys(arrs, n);
    var a := Permute(arrs[j], s[lo..hi]);
    forall x, y | 0 <= x < y < |a| ensures Le(a[x], a[y]) {
      var p, q := lo + x, lo + y;
      assert RowBefore(keys, s[p], s[q]);
      var kp, kq := keys[s[p]], keys[s[q]];
      assert a[x] == kp[j] && a[y] == kq[j];
      if TupleLt(kp, kq) {
        TupleLtPrefix(kp, kq, j);
      }
    }
  }

  /** The two binary searches bracket exactly the positions holding `k`. */
  lemma Bracket(a: seq<Value>, k: Value, i0: nat, i1: nat)
    requires i0 <= |a| && i1 <= |a|
    requires forall x :: 0 <= x < i0 ==> Lt(a[x], k)
    requires forall x :: i0 <= x < |a| ==> !Lt(a[x], k)
    requires forall x :: 0 <= x < i1 ==> Le(a[x], k)
    requires forall x :: i1 <= x < |a| ==> Lt(k, a[x])
    ensures forall x :: 0 <= x < |a| ==> (i0 <= x < i1 <==> a[x] == k)
    ensures i0 < |a| && a[i0] == k ==> i0 < i1
  {
    LtIrreflexive(k);
  }

  /** When the left bound is past the end or holds another value, `k` does not occur. */
  lemma Absent(a: seq<Value>, k: Value, i0: nat)
    requires Ascending(a) && i0 <= |a|
    requires forall x :: 0 <= x < i0 ==> Lt(a[x], k)
    requires forall x :: i0 <= x < |a| ==> !Lt(a[x], k)
    requires i0 == |a| || a[i0] != k
    ensures forall x :: 0 <= x < |a| ==> a[x] != k
  {
    LtIrreflexive(k);
    forall x | i0 <= x < |a| ensures a[x] != k {
      assert Le(a[i0], a[x]);
    }
  }

  /** Narrowing the range to the positions whose column `j` holds `ks[j]` extends the matched prefix by one. */
  lemma Narrow(keys: seq<Key>, s: seq<nat>, ks: Key, j: nat, lo: nat, hi: nat, a: seq<Value>, i0: nat, i1: nat)
    requires InRange(s, |keys|) && lo <= hi <= |s| && |a| == hi - lo
    requires j < |ks| && forall r :: 0 <= r < |keys| ==> j < |keys[r]|
    requires forall x :: 0 <= x < |a| ==> a[x] == keys[s[lo + x]][j]
    requires forall p :: 0 <= p < |s| ==> (lo <= p < hi <==> PrefixMatch(keys[s[p]], ks, j))
    requires i0 <= i1 <= |a|
    requires forall x :: 0 <= x < |a| ==> (i0 <= x < i1 <==> a[x] == ks[j])
    ensures forall p :: 0 <= p < |s| ==> (lo + i0 <= p < lo + i1 <==> PrefixMatch(keys[s[p]], ks, j + 1))
  {
    forall p | 0 <= p < |s| ensures lo + i0 <= p < lo + i1 <==> PrefixMatch(keys[s[p]], ks, j + 1) {
      if lo <= p < hi {
        assert a[p - lo] == keys[s[p]][j];
      }
    }
  }

  /** The range became empty: no row matches the first `j + 1` components. */
  lemma NarrowEmpty(keys: seq<Key>, s: seq<nat>, ks: Key, j: nat, lo: nat, hi: nat, a: seq<Value>)
    requires IsPermutation(s, |keys|) && lo <= hi <= |s| && |a| == hi - lo
    requires j < |ks| && forall r :: 0 <= r < |keys| ==> j < |keys[r]|
    requires forall x :: 0 <= x < |a| ==> a[x] == keys[s[lo + x]][j]
    requires forall p :: 0 <= p < |s| ==> (lo <= p < hi <==> PrefixMatch(keys[s[p]], ks, j))
    requires forall x :: 0 <= x < |a| ==> a[x] != ks[j]
    ensures forall r :: 0 <= r < |keys| ==> !PrefixMatch(keys[r], ks, j + 1)
  {
    forall r | 0 <= r < |keys| ensures !PrefixMatch(keys[r], ks, j + 1) {
      var p := PositionOf(s, |keys|, r);
      if lo <= p < hi {
        assert a[p - lo] == keys[r][j];
      }
    }
  }

  /** With unique keys, at most one position of the order matches a whole key. */
  lemma UniqueMatch(keys: seq<Key>, s: seq<nat>, ks: Key, p: nat, q: nat)
    requires IsPermutation(s, |keys|) && Unique(keys) && Width(keys, |ks|)
    requires p < |s| && q < |s|
    requires PrefixMatch(keys[s[p]], ks, |ks|) && PrefixMatch(keys[s[q]], ks, |ks|)
    ensures p == q
  {
    assert keys[s[p]] == ks && keys[s[q]] == ks;
  }

  /**
   * One step of `rows[key]`: within the range `[lo, hi)` of the order `s`,
   * whose rows match the first `j` components of `ks`, binary-search column
   * `j` for `ks[j]` and keep the positions that hold it.
   */
  method Narrowed(arrs: seq<seq<Value>>, n: nat, s: seq<nat>, ks: Key, j: nat, lo: nat, hi: nat)
    returns (found: bool, lo': nat, hi': nat)
    requires Rectangular(arrs, n) && IsStableOrder(RowKeys(arrs, n), s)
    requires j < |arrs| && j < |ks| && lo <= hi <= n
    requires forall p :: 0 <= p < n ==> (lo <= p < hi <==> PrefixMatch(RowKeys(arrs, n)[s[p]], ks, j))
    ensures found ==> lo' < hi' <= n
    ensures found ==> forall p :: 0 <= p < n ==>
      (lo' <= p < hi' <==> PrefixMatch(RowKeys(arrs, n)[s[p]], ks, j + 1))
    ensures !found ==> forall r :: 0 <= r < n ==> !PrefixMatch(RowKeys(arrs, n)[r], ks, j + 1)
  {
    ghost var keys := RowKeys(arrs, n);
    RangeAscending(arrs, n, s, lo, hi, ks, j);
    var a := Permute(arrs[j], s[lo..hi]);
    var k := ks[j];
    var i0 := SearchLeft(a, k);
    if i0 == |a| || a[i0] != k {
      Absent(a, k, i0);
      NarrowEmpty(keys, s, ks, j, lo, hi, a);
      return false, lo, hi;
    }
    var i1 := SearchRight(a, k);
    Bracket(a, k, i0, i1);
    Narrow(keys, s, ks, j, lo, hi, a, i0, i1);
    return true, lo + i0, lo + i1;
  }

  /** A range of the order whose rows all match a whole key holds at most one row. */
  lemma AtMostOne(keys: seq<Key>, s: seq<nat>, ks: Key, lo: nat, hi: nat)
    requires IsPermutation(s, |keys|) && Unique(keys) && Width(keys, |ks|) && lo <= hi <= |s|
    requires forall p :: 0 <= p < |s| ==> (lo <= p < hi <==> PrefixMatch(keys[s[p]], ks, |ks|))
    ensures hi <= lo + 1
  {
    if hi > lo + 1 {
      UniqueMatch(keys, s, ks, lo, lo + 1);
    }
  }

  // ---- The finding at the left bound -------------------------------------------------

  /**
   * Lines 98-99 as written: the value at the left search bound is compared
   * with the key even when the bound is past the end, which raises
   * `IndexError` for a key above every value in the range.
   */
  function ProbeAsWritten(a: seq<Value>, k: Value): (r: Result<bool, Error>)
    requires Ascending(a)
    ensures r.Err? <==> forall x :: 0 <= x < |a| ==> Lt(a[x], k)
    ensures r.Err? ==> r.error == IndexError(|a|)
    ensures r.Ok? ==> (r.value <==> k in a)
  {
    var i0 := CountBelow(a, k);
    CountBelowSplits(a, k);
    LtIrreflexive(k);
    if i0 == |a| then Err(IndexError(i0))
    else
      assert forall x :: i0 <= x < |a| ==> Le(a[i0], a[x]);
      Ok(a[i0] == k)
  }

  /** The probe as intended: a left bound past the end means the key is missing. */
  function Probe(a: seq<Value>, k: Value): (found: bool)
    requires Ascending(a)
    ensures found <==> k in a
  {
    var i0 := CountBelow(a, k);
    CountBelowSplits(a, k);
    LtIrreflexive(k);
    assert i0 < |a| ==> forall x :: i0 <= x < |a| ==> Le(a[i0], a[x]);
    i0 < |a| && a[i0] == k
  }

  /**
   * An index with the one column `[1]`: looking up `2` reads past the end of
   * the searched range as written, where the key is simply missing.
   */
  lemma ProbePastEnd()
    ensures ProbeAsWritten([Int(1)], Int(2)) == Err(IndexError(1))
    ensures !Probe([Int(1)], Int(2))
    ensures Lookup([[Int(1)]], [Int(2)], 1) == Err(KeyError([Int(2)]))
  {
    assert Lt(Int(1), Int(2));
    LookupMissing([[Int(1)]], [Int(2)], 1);
  }

  // ---- The index object -------------------------------------------------------------

  class Index {
    const names: seq<string>
    const cols: seq<Column>
    const length: nat
    /** The `lazy_property` slot for `sorter`, filled by the constructor's uniqueness check. */
    var sorterCache: Option<seq<nat>>

    /** The arrays of the key columns, in column order. */
    function Arrs(): (arrs: seq<seq<Value>>)
      ensures |arrs| == |cols|
      ensures forall j :: 0 <= j < |cols| ==> arrs[j] == cols[j].arr
    {
      seq(|cols|, j requires 0 <= j < |cols| => cols[j].arr)
    }

    ghost predicate Valid()
      reads this
    {
      && |cols| >= 1
      && |names| == |cols|
      && PyLib.Distinct(names)
      && Rectangular(Arrs(), length)
      && Unique(RowKeys(Arrs(), length))
      && sorterCache == Some(ArgSort(RowKeys(Arrs(), length)))
    }

    constructor (names: seq<string>, cols: seq<Column>, length: nat, sorter: seq<nat>)
      ensures this.names == names && this.cols == cols && this.length == length
      ensures sorterCache == Some(sorter)
    {
      this.names := names;
      this.cols := cols;
      this.length := length;
      sorterCache := Some(sorter);
    }

    /** `rows.keys()` and iteration over `rows`: the row keys in row order. */
    function Keys(): (keys: seq<Key>)
      requires Rectangular(Arrs(), length)
      ensures |keys| == length && Width(keys, |cols|)
      ensures forall i, j :: 0 <= i < length && 0 <= j < |cols| ==> keys[i][j] == cols[j].arr[i]
    {
      RowKeys(Arrs(), length)
    }

    /** `rows.values()`: the row positions. */
    function Values(): (vs: seq<nat>)
      ensures |vs| == length
      ensures forall i :: 0 <= i < length ==> vs[i] == i
    {
      seq(length, i requires 0 <= i < length => i)
    }

    /** `rows.items()`: each row key with its position. */
    function Items(): (items: seq<(Key, nat)>)
      requires Rectangular(Arrs(), length)
      ensures |items| == length
      ensures forall i :: 0 <= i < length ==> items[i] == (Keys()[i], Values()[i])
    {
      seq(length, i requires 0 <= i < length => (Keys()[i], Values()[i]))
    }

    /** `cols`: each name with its column's array. */
    function ColArrays(): (d: ODict<seq<Value>>)
      requires |names| == |cols| && PyLib.Distinct(names)
      ensures d.Valid() && d.names == names
      ensures forall j :: 0 <= j < |cols| ==> d.m[names[j]] == cols[j].arr
    {
      var d := ODict(names, map n | n in names :: cols[PyLib.IndexOf(names, n)].arr);
      assert forall j :: 0 <= j < |cols| ==> PyLib.IndexOf(names, names[j]) == j;
      d
    }

    /** `sorter`: the rows in ascending key order. */
    method Sorter() returns (s: seq<nat>)
      requires Valid()
      ensures IsStableOrder(Keys(), s)
      ensures s == ArgSort(Keys())
    {
      s := sorterCache.value;
    }

    /**
     * `rows[key]`: the position of the row whose key is `key` (a scalar is a
     * 1-tuple), found by narrowing a range of the sorted order one column at
     * a time with the left and right binary searches.
     */
    method Get(key: PyLib.Arg<Value>) returns (r: Result<nat, Error>)
      requires Valid()
      ensures r == Lookup(Keys(), PyLib.Tupleize(key), |cols|)
    {
      var ks := PyLib.Tupleize(key);
      var arrs := Arrs();
      ghost var keys := Keys();
      var sorter := sorterCache.value;
      var m := Min(|ks|, |cols|);
      var lo, hi := 0, length;
      var j := 0;
      while j < m
        invariant 0 <= j <= m
        invariant 0 <= lo <= hi <= length
        invariant j > 0 ==> lo < hi
        invariant forall p :: 0 <= p < length ==> (lo <= p < hi <==> PrefixMatch(keys[sorter[p]], ks, j))
      {
        var found;
        found, lo, hi := Narrowed(arrs, length, sorter, ks, j, lo, hi);
        if !found {
          LookupNoPrefix(keys, ks, |cols|, j);
          return Err(KeyError(ks));
        }
        j := j + 1;
      }
      if |ks| != |cols| {
        if m > 0 {
          LookupWrongLength(keys, ks, |cols|, sorter[lo]);
        }
        r := if |ks| > |cols| then Err(ValueError("zip() argument 2 is shorter than argument 1"))
          else Err(ValueError("zip() argument 2 is longer than argument 1"));
        return;
      }
      AtMostOne(keys, sorter, ks, lo, hi);
      assert hi - lo == 1;
      LookupFound(keys, ks, |cols|, sorter[lo]);
      r := Ok(sorter[lo]);
    }
  }

  /** Every pair of `rows.items()` is found again: looking up its key gives its position. */
  lemma ItemsRoundTrip(idx: Index)
    requires idx.Valid()
    ensures forall i :: 0 <= i < |idx.Items()| ==>
      Lookup(idx.Keys(), idx.Items()[i].0, |idx.cols|) == Ok(idx.Items()[i].1)
  {
    forall i | 0 <= i < |idx.Items()|
      ensures Lookup(idx.Keys(), idx.Items()[i].0, |idx.cols|) == Ok(idx.Items()[i].1)
    {
      LookupFinds(idx.Keys(), |idx.cols|, i);
    }
  }

  // ---- Construction ---------------------------------------------------------------------

  /**
   * `Index(cols)`: wraps every argument as a column, requires at least one
   * column and equal lengths, sorts the rows (filling the last column's own
   * sorter cache on the way) and rejects the smallest repeated row key.
   */
  method NewIndex(d: ODict<ColumnArg>) returns (r: Result<Index, Error>)
    requires d.Valid()
    requires forall c :: c in Given(d) ==> c.Valid()
    modifies Given(d)
    ensures !AllWrap(d) ==> r == Err(ValueError("not one-dimensional"))
    ensures AllWrap(d) && |d.names| == 0 ==> r == Err(ValueError("no cols"))
    ensures AllWrap(d) && |d.names| > 0 && !Rectangular(ArgArrs(d), |ArgArrs(d)[0]|) ==>
      r == Err(ValueError("not the same length"))
    ensures AllWrap(d) && |d.names| > 0 && Rectangular(ArgArrs(d), |ArgArrs(d)[0]|) ==>
      var keys := RowKeys(ArgArrs(d), |ArgArrs(d)[0]|);
      && (!Unique(keys) ==> r.Err? && r.error.NotUnique? && SmallestRepeated(keys, r.error.key))
      && (Unique(keys) ==>
            r.Ok? && fresh(r.value) && r.value.Valid() && r.value.names == d.names && r.value.Arrs() == ArgArrs(d))
  {
    var wrapped := WrapAll(d);
    if wrapped.Err? {
      return Err(wrapped.error);
    }
    var cols := wrapped.value;
    var arrs := seq(|cols|, c requires 0 <= c < |cols| => cols[c].arr);
    assert arrs == ArgArrs(d);
    if |cols| == 0 {
      return Err(ValueError("no cols"));
    }
    var length := |cols[0].arr|;
    if exists c :: 0 <= c < |cols| && |cols[c].arr| != length {
      return Err(ValueError("not the same length"));
    }
    assert Rectangular(arrs, length);
    r := Keyed(d.names, cols, arrs, length);
  }

  /**
   * The rest of `Index.__init__`, once the key columns are known to be of one
   * length: sorts the row keys, starting from the last column's sorter, and
   * rejects the smallest repeated key.
   */
  method Keyed(names: seq<string>, cols: seq<Column>, arrs: seq<seq<Value>>, length: nat) returns (r: Result<Index, Error>)
    requires |cols| >= 1 && |names| == |cols| && PyLib.Distinct(names)
    requires forall c :: 0 <= c < |cols| ==> cols[c].Valid()
    requires |arrs| == |cols| && (forall c :: 0 <= c < |cols| ==> arrs[c] == cols[c].arr) && Rectangular(arrs, length)
    modifies cols[|cols| - 1]
    ensures var keys := RowKeys(arrs, length);
      && (!Unique(keys) ==> r.Err? && r.error.NotUnique? && SmallestRepeated(keys, r.error.key))
      && (Unique(keys) ==> r.Ok? && fresh(r.value) && r.value.Valid() && r.value.names == names && r.value.Arrs() == arrs)
  {
    var last := cols[|cols| - 1].Sorter();
    var sorter := MultiSort(arrs, length, last);
    var repeated := CheckUnique(arrs, length, sorter);
    if repeated.Some? {
      return Err(NotUnique(repeated.value));
    }
    var idx := new Index(names, cols, length, sorter);
    assert idx.Arrs() == arrs;
    r := Ok(idx);
  }
}
