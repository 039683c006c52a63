/**
 * Group-by over `ntab` tables. `argunique(a)` decomposes an array into a
 * stable sort order, the ascending distinct values, and the run boundaries
 * in the sort order, so that the run of the `i`-th distinct value lists, in
 * row order, exactly the rows holding it. `SingleGroupBy` groups one table
 * by one array; `GroupBy` groups several tables by one array each, over the
 * union of their values.
 */
module GroupBys {
  import opened Wrappers
  import opened Values
  import opened Errors
  import opened Sorting
  import opened Search
  import NTab
  import Tables
  import PyLib
  import Indexes
  import ODict

  predicate StrictlyAscending(u: seq<Value>)
  {
    forall i, j :: 0 <= i < j < |u| ==> Lt(u[i], u[j])
  }

  /** In a strictly ascending sequence, comparing values is comparing positions. */
  lemma AscendingIndex(u: seq<Value>, k: nat, i: nat)
    requires StrictlyAscending(u) && k < |u| && i < |u|
    ensures Lt(u[k], u[i]) <==> k < i
    ensures u[k] == u[i] <==> k == i
  {
    if k == i {
      LtIrreflexive(u[k]);
    } else if i < k {
      LtAsymmetric(u[i], u[k]);
    } else {
      LtAsymmetric(u[k], u[i]);
    }
  }

  /** A strictly ascending sequence has as many distinct values as entries. */
  lemma {:induction false} DistinctCount(u: seq<Value>)
    requires StrictlyAscending(u)
    ensures |set v | v in u| == |u|
  {
    if u != [] {
      DistinctCount(u[1..]);
      forall k | 1 <= k < |u| ensures u[k] != u[0] {
        LtAsymmetric(u[0], u[k]);
      }
      assert (set v | v in u) == {u[0]} + (set v | v in u[1..]);
    }
  }

  /** Strictly increasing positions are fixed by the positions they hold. */
  lemma IncreasingUnique(n: nat, r1: seq<nat>, r2: seq<nat>)
    requires InRange(r1, n) && InRange(r2, n)
    requires forall p, q :: 0 <= p < q < |r1| ==> r1[p] < r1[q]
    requires forall p, q :: 0 <= p < q < |r2| ==> r2[p] < r2[q]
    requires forall x :: x in r1 <==> x in r2
    ensures r1 == r2
  {
    var keys: seq<Key> := seq(n, _ => []);
    assert SortedBy(keys, r1) by {
      forall p, q | 0 <= p < q < |r1| ensures RowBefore(keys, r1[p], r1[q]) {
        assert keys[r1[p]] == [] && keys[r1[q]] == [];
      }
    }
    assert SortedBy(keys, r2) by {
      forall p, q | 0 <= p < q < |r2| ensures RowBefore(keys, r2[p], r2[q]) {
        assert keys[r2[p]] == [] && keys[r2[q]] == [];
      }
    }
    SortedUnique(keys, r1, r2);
  }

  // ---- The argunique decomposition ---------------------------------------------------

  /** An ascending sequence with repeats dropped: numpy's `unique` of sorted values. */
  function Dedup(s: seq<Value>): (u: seq<Value>)
    requires Ascending(s)
    ensures StrictlyAscending(u)
    ensures forall v :: v in u <==> v in s
    decreases |s|
  {
    if |s| <= 1 then s
    else
      var rest := Dedup(s[1..]);
      if s[0] == s[1] then
        assert s[0] in s[1..];
        rest
      else
        assert forall j :: 0 <= j < |rest| ==> Lt(s[0], rest[j]) by {
          forall j | 0 <= j < |rest| ensures Lt(s[0], rest[j]) {
            assert rest[j] in s[1..];
            var k :| 0 <= k < |s| - 1 && s[1..][k] == rest[j];
            assert Le(s[1], s[k + 1]);
            LtLeTransitive(s[0], s[1], s[k + 1]);
          }
        }
        [s[0]] + rest
  }

  /** The values of `a` in its stable sort order. */
  function SortedValues(a: seq<Value>): (s: seq<Value>)
    ensures |s| == |a| && Ascending(s)
    ensures forall p :: 0 <= p < |a| ==> StableArgsort(a)[p] < |a| && s[p] == a[StableArgsort(a)[p]]
    ensures forall v :: v in s <==> v in a
  {
    var order := StableArgsort(a);
    var s := Permute(a, order);
    assert Ascending(s) by {
      forall i, j | 0 <= i < j < |s| ensures Le(s[i], s[j]) {
        StableArgsortOrders(a, order, i, j);
      }
    }
    forall v | v in a ensures v in s {
      var j :| 0 <= j < |a| && a[j] == v;
      assert j in order;
      var p :| 0 <= p < |order| && order[p] == j;
      assert s[p] == v;
    }
    s
  }

  /** Every value of `a` is among `u`. */
  predicate Covers(u: seq<Value>, a: seq<Value>)
  {
    forall j :: 0 <= j < |a| ==> a[j] in u
  }

  /** The start of the run of `u[i]` in the sort order of `a`; the end of the last run is `|a|`. */
  function EdgeAt(a: seq<Value>, u: seq<Value>, i: nat): (e: nat)
    requires i <= |u|
    ensures e <= |a|
  {
    if i < |u| then CountBelow(SortedValues(a), u[i]) else |a|
  }

  /** The rows of `a` holding `v`, in row order. */
  function RowsOf(a: seq<Value>, v: Value): (rs: seq<nat>)
    ensures forall p :: 0 <= p < |rs| ==> rs[p] < |a| && a[rs[p]] == v
    ensures forall j :: 0 <= j < |a| && a[j] == v ==> j in rs
    ensures forall p, q :: 0 <= p < q < |rs| ==> rs[p] < rs[q]
  {
    Tables.MaskPositions(seq(|a|, j requires 0 <= j < |a| => a[j] == v))
  }

  /** The run boundaries are ordered, so each run is a slice of the sort order. */
  lemma EdgesMonotone(a: seq<Value>, u: seq<Value>, i: nat)
    requires StrictlyAscending(u) && i < |u|
    ensures EdgeAt(a, u, i) <= EdgeAt(a, u, i + 1)
  {
    var s := SortedValues(a);
    if i + 1 < |u| {
      CountBelowSplits(s, u[i]);
      CountBelowSplits(s, u[i + 1]);
      var e0 := EdgeAt(a, u, i);
      if e0 > 0 {
        LtTransitive(s[e0 - 1], u[i], u[i + 1]);
      }
    }
  }

  /** Every row in the run of `u[i]` holds `u[i]`. */
  lemma RunMember(a: seq<Value>, u: seq<Value>, i: nat, q: nat)
    requires StrictlyAscending(u) && Covers(u, a) && i < |u|
    requires EdgeAt(a, u, i) <= q < EdgeAt(a, u, i + 1)
    ensures a[StableArgsort(a)[q]] == u[i]
  {
    var s := SortedValues(a);
    CountBelowSplits(s, u[i]);
    assert s[q] in u;
    var k :| 0 <= k < |u| && u[k] == s[q];
    AscendingIndex(u, k, i);
    if i + 1 < |u| {
      CountBelowSplits(s, u[i + 1]);
      AscendingIndex(u, k, i + 1);
    }
  }

  /** Where row `j` stands in the sort order. */
  lemma PositionOf(a: seq<Value>, j: nat) returns (q: nat)
    requires j < |a|
    ensures q < |a| && StableArgsort(a)[q] == j && SortedValues(a)[q] == a[j]
  {
    assert j in StableArgsort(a);
    q :| 0 <= q < |a| && StableArgsort(a)[q] == j;
  }

  /** A sorted position holding `u[i]` lies between the run's edges. */
  lemma InRun(a: seq<Value>, u: seq<Value>, i: nat, q: nat)
    requires StrictlyAscending(u) && i < |u| && q < |a| && SortedValues(a)[q] == u[i]
    ensures EdgeAt(a, u, i) <= q < EdgeAt(a, u, i + 1)
  {
    var s := SortedValues(a);
    CountBelowSplits(s, u[i]);
    LtIrreflexive(u[i]);
    if i + 1 < |u| {
      CountBelowSplits(s, u[i + 1]);
    }
  }

  /** The run of `u[i]`: the stretch of the sort order between its two edges. */
  function RunSlice(a: seq<Value>, u: seq<Value>, i: nat): (run: seq<nat>)
    requires StrictlyAscending(u) && i < |u|
    ensures EdgeAt(a, u, i) <= EdgeAt(a, u, i + 1)
    ensures |run| == EdgeAt(a, u, i + 1) - EdgeAt(a, u, i)
    ensures forall p :: 0 <= p < |run| ==> run[p] == StableArgsort(a)[EdgeAt(a, u, i) + p]
  {
    EdgesMonotone(a, u, i);
    StableArgsort(a)[EdgeAt(a, u, i)..EdgeAt(a, u, i + 1)]
  }

  /** Every row holding `u[i]` is in its run. */
  lemma RunCovers(a: seq<Value>, u: seq<Value>, i: nat, j: nat)
    requires StrictlyAscending(u) && i < |u| && j < |a| && a[j] == u[i]
    ensures j in RunSlice(a, u, i)
  {
    var q := PositionOf(a, j);
    InRun(a, u, i, q);
    assert RunSlice(a, u, i)[q - EdgeAt(a, u, i)] == j;
  }

  /** The rows of the run of `u[i]` all hold `u[i]`. */
  lemma RunHolds(a: seq<Value>, u: seq<Value>, i: nat)
    requires StrictlyAscending(u) && Covers(u, a) && i < |u|
    ensures forall p :: 0 <= p < |RunSlice(a, u, i)| ==> RunSlice(a, u, i)[p] < |a| && a[RunSlice(a, u, i)[p]] == u[i]
  {
    var run := RunSlice(a, u, i);
    forall p | 0 <= p < |run| ensures run[p] < |a| && a[run[p]] == u[i] {
      RunMember(a, u, i, EdgeAt(a, u, i) + p);
    }
  }

  /** The run of `u[i]` lists its rows in row order, by the stability of the sort. */
  lemma RunIncreasing(a: seq<Value>, u: seq<Value>, i: nat)
    requires StrictlyAscending(u) && Covers(u, a) && i < |u|
    ensures forall p, q :: 0 <= p < q < |RunSlice(a, u, i)| ==> RunSlice(a, u, i)[p] < RunSlice(a, u, i)[q]
  {
    RunHolds(a, u, i);
    assert EdgeAt(a, u, i) + |RunSlice(a, u, i)| == EdgeAt(a, u, i + 1) <= |StableArgsort(a)|;
    EqualRunIncreasing(a, StableArgsort(a), RunSlice(a, u, i), EdgeAt(a, u, i), u[i]);
  }

  /**
   * A stretch of a stable order whose rows all hold one value lists them in
   * row order.
   */
  lemma EqualRunIncreasing(a: seq<Value>, r: seq<nat>, run: seq<nat>, lo: nat, v: Value)
    requires IsStableOrder(Singletons(a), r) && lo + |run| <= |r|
    requires forall p :: 0 <= p < |run| ==> run[p] == r[lo + p]
    requires forall p :: 0 <= p < |run| ==> run[p] < |a| && a[run[p]] == v
    ensures forall p, q :: 0 <= p < q < |run| ==> run[p] < run[q]
  {
    forall p, q | 0 <= p < q < |run| ensures run[p] < run[q] {
      StableArgsortOrders(a, r, lo + p, lo + q);
    }
  }

  /**
   * The `argunique` contract: for values `u` ascending without repeats and
   * covering `a`, the run of `u[i]` in the stable sort order is exactly the
   * rows holding `u[i]`, in row order.
   */
  lemma RunIsGroup(a: seq<Value>, u: seq<Value>, i: nat)
    requires StrictlyAscending(u) && Covers(u, a) && i < |u|
    ensures EdgeAt(a, u, i) <= EdgeAt(a, u, i + 1)
    ensures StableArgsort(a)[EdgeAt(a, u, i)..EdgeAt(a, u, i + 1)] == RowsOf(a, u[i])
  {
    var run := RunSlice(a, u, i);
    RunHolds(a, u, i);
    RunIncreasing(a, u, i);
    forall j | j in RowsOf(a, u[i]) ensures j in run {
      RunCovers(a, u, i, j);
    }
    IncreasingUnique(|a|, run, RowsOf(a, u[i]));
  }

  /** What `argunique` returns: the sort order, the distinct values, and the run boundaries. */
  datatype ArgUnique = ArgUnique(order: seq<nat>, unique: seq<Value>, edge: seq<nat>)

  /** `nplib.argunique(a)`. */
  function ArgUniqueOf(a: seq<Value>): (r: ArgUnique)
    ensures r.order == StableArgsort(a)
    ensures StrictlyAscending(r.unique) && forall v :: v in r.unique <==> v in a
    ensures |r.edge| == |r.unique| + 1
    ensures forall i :: 0 <= i <= |r.unique| ==> r.edge[i] == EdgeAt(a, r.unique, i)
  {
    var u := Dedup(SortedValues(a));
    ArgUnique(StableArgsort(a), u, seq(|u| + 1, i requires 0 <= i <= |u| => EdgeAt(a, u, i)))
  }

  /** Group `i`'s rows: the run between its two edges. */
  function Run(r: ArgUnique, i: nat): seq<nat>
    requires i < |r.unique| && |r.edge| == |r.unique| + 1 && r.edge[i] <= r.edge[i + 1] <= |r.order|
  {
    r.order[r.edge[i]..r.edge[i + 1]]
  }

  /** Each run of `argunique(a)` is exactly the rows holding its value, in row order. */
  lemma ArgUniqueRuns(a: seq<Value>, i: nat)
    requires i < |ArgUniqueOf(a).unique|
    ensures var r := ArgUniqueOf(a);
      r.edge[i] <= r.edge[i + 1] <= |r.order| && Run(r, i) == RowsOf(a, r.unique[i])
  {
    RunIsGroup(a, ArgUniqueOf(a).unique, i);
  }

  /** The runs partition the rows: each row lies in exactly one run, that of its own value. */
  lemma RunsPartition(a: seq<Value>, j: nat)
    requires j < |a|
    ensures var r := ArgUniqueOf(a);
      exists i :: 0 <= i < |r.unique| && r.unique[i] == a[j] && RunOf(r, i, j)
        && forall i' :: 0 <= i' < |r.unique| && RunOf(r, i', j) ==> i' == i
  {
    var r := ArgUniqueOf(a);
    assert a[j] in a;
    var i :| 0 <= i < |r.unique| && r.unique[i] == a[j];
    RunOfIff(a, i, j);
    forall i' | 0 <= i' < |r.unique| && RunOf(r, i', j) ensures i' == i {
      RunOfIff(a, i', j);
      AscendingIndex(r.unique, i', i);
    }
  }

  /** Row `j` lies in run `i` exactly when it holds the run's value. */
  lemma RunOfIff(a: seq<Value>, i: nat, j: nat)
    requires i < |ArgUniqueOf(a).unique| && j < |a|
    ensures RunOf(ArgUniqueOf(a), i, j) <==> a[j] == ArgUniqueOf(a).unique[i]
  {
    ArgUniqueRuns(a, i);
  }

  /** Row `j` lies in run `i`. */
  ghost predicate RunOf(r: ArgUnique, i: nat, j: nat)
    requires i < |r.unique| && |r.edge| == |r.unique| + 1
  {
    r.edge[i] <= r.edge[i + 1] <= |r.order| && j in Run(r, i)
  }

  /** The group of rows of `t` whose array `a` holds `v`: `_take_rows` of those rows. */
  function Group(t: NTab.State, a: seq<Value>, v: Value): (g: NTab.State)
    requires t.Valid() && |a| == t.NumRows()
  {
    NTab.Taken(t, RowsOf(a, v))
  }

  /** A group is what `filter(name=v)` returns: the rows whose array `name` holds `v`. */
  lemma GroupIsFilter(t: NTab.State, name: string, v: Value)
    requires t.Valid() && name in t.arrs.m
    ensures NTab.FilterOf(t, [(name, v)]) == Ok(Group(t, t.arrs.m[name], v))
  {
    var a := t.arrs.m[name];
    var sel := [(name, v)];
    assert ODict.Names(sel)[0] == name;
    assert Tables.FirstAbsent(ODict.Names(sel), t.arrs.m).None?;
    var mask := seq(t.NumRows(), i => NTab.RowMatches(t.arrs.m, sel, i));
    assert mask == seq(|a|, j requires 0 <= j < |a| => a[j] == v);
  }

  // ---- Grouping one table ------------------------------------------------------------

  /** Run `i` of `r` is exactly the rows of `a` holding its value. */
  ghost predicate RunAt(a: seq<Value>, r: ArgUnique, i: nat)
    requires i < |r.unique| && |r.edge| == |r.unique| + 1
  {
    r.edge[i] <= r.edge[i + 1] <= |r.order| && Run(r, i) == RowsOf(a, r.unique[i])
  }

  /** Every run of `r` is exactly the rows of `a` holding its value. */
  ghost predicate RunsAre(a: seq<Value>, r: ArgUnique)
  {
    |r.edge| == |r.unique| + 1 && forall i :: 0 <= i < |r.unique| ==> RunAt(a, r, i)
  }

  /** `argunique(a)` decomposes `a` into runs. */
  lemma ArgUniqueRunsAre(a: seq<Value>)
    ensures RunsAre(a, ArgUniqueOf(a))
  {
    forall i | 0 <= i < |ArgUniqueOf(a).unique| ensures RunAt(a, ArgUniqueOf(a), i) {
      ArgUniqueRuns(a, i);
    }
  }

  /** The group of run `i`: `_take_rows` of the run. */
  method TakeRun(t: NTab.State, a: seq<Value>, r: ArgUnique, i: nat) returns (g: NTab.State)
    requires t.Valid() && |a| == t.NumRows() && RunsAre(a, r) && i < |r.unique|
    ensures g == Group(t, a, r.unique[i])
  {
    assert RunAt(a, r, i);
    g := NTab.TakeRows(t, Run(r, i)).value;
  }

  /** `values()`: walks the edge pairs, taking each run's rows from the table. */
  method RunGroups(t: NTab.State, a: seq<Value>, r: ArgUnique) returns (groups: seq<NTab.State>)
    requires t.Valid() && |a| == t.NumRows() && RunsAre(a, r)
    ensures |groups| == |r.unique|
    ensures forall i :: 0 <= i < |groups| ==> groups[i] == Group(t, a, r.unique[i])
  {
    ghost var want := seq(|r.unique|, k requires 0 <= k < |r.unique| => Group(t, a, r.unique[k]));
    groups := [];
    for i := 0 to |r.unique|
      invariant groups == want[..i]
    {
      var g := TakeRun(t, a, r, i);
      groups := groups + [g];
    }
    assert groups == want;
  }

  /**
   * `SingleGroupBy(table, name)`: groups the table's rows by the values of its
   * array `name`. The decomposition is computed on first use and kept.
   */
  class SingleGroupBy {
    const table: NTab.State
    const name: string
    const arr: seq<Value>
    var cache: Option<ArgUnique>

    ghost predicate Valid()
      reads this
    {
      && table.Valid() && name in table.arrs.m && arr == table.arrs.m[name] && |arr| == table.NumRows()
      && (cache.Some? ==> cache.value == ArgUniqueOf(arr))
    }

    constructor (table: NTab.State, name: string)
      requires table.Valid() && name in table.arrs.m
      ensures Valid() && this.table == table && this.name == name && cache == None
    {
      this.table := table;
      this.name := name;
      this.arr := table.arrs.m[name];
      cache := None;
    }

    /** `__argunique`: the kept decomposition, or a new one, now kept. */
    method ArgUniqueCached() returns (r: ArgUnique)
      requires Valid()
      modifies this`cache
      ensures Valid() && r == ArgUniqueOf(arr) && cache == Some(r)
      ensures old(cache).Some? ==> cache == old(cache)
    {
      if cache.Some? {
        r := cache.value;
      } else {
        r := ArgUniqueOf(arr);
        cache := Some(r);
      }
    }

    /** `keys()`: the distinct values of the array, ascending. */
    method Keys() returns (ks: seq<Value>)
      requires Valid()
      modifies this`cache
      ensures Valid() && ks == ArgUniqueOf(arr).unique
      ensures StrictlyAscending(ks) && forall v :: v in ks <==> v in arr
    {
      var r := ArgUniqueCached();
      ks := r.unique;
    }

    /** `len(g)`: the number of distinct values of the array. */
    method Len() returns (n: nat)
      requires Valid()
      modifies this`cache
      ensures Valid() && n == |set v | v in arr|
    {
      var r := ArgUniqueCached();
      n := |r.unique|;
      DistinctCount(r.unique);
      assert (set v | v in r.unique) == (set v | v in arr);
    }

    /** `values()`: the group of each distinct value, in ascending value order. */
    method Values() returns (groups: seq<NTab.State>)
      requires Valid()
      modifies this`cache
      ensures Valid()
      ensures |groups| == |ArgUniqueOf(arr).unique|
      ensures forall i :: 0 <= i < |groups| ==> groups[i] == Group(table, arr, ArgUniqueOf(arr).unique[i])
    {
      var r := ArgUniqueCached();
      ArgUniqueRunsAre(arr);
      groups := RunGroups(table, arr, r);
    }

    /** `items()`: each distinct value, ascending, with its group. */
    method Items() returns (items: seq<(Value, NTab.State)>)
      requires Valid()
      modifies this`cache
      ensures Valid()
      ensures |items| == |ArgUniqueOf(arr).unique|
      ensures forall i :: 0 <= i < |items| ==>
        items[i].0 == ArgUniqueOf(arr).unique[i] && items[i].1 == Group(table, arr, ArgUniqueOf(arr).unique[i])
    {
      var r := ArgUniqueCached();
      ArgUniqueRunsAre(arr);
      var groups := RunGroups(table, arr, r);
      items := seq(|groups|, i requires 0 <= i < |groups| => (r.unique[i], groups[i]));
    }

    /** `g[v]`: the group of `v`; `KeyError` when no row holds `v`. */
    method Get(v: Value) returns (r: Result<NTab.State, Error>)
      requires Valid()
      modifies this`cache
      ensures Valid()
      ensures v in arr ==> r == Ok(Group(table, arr, v))
      ensures v !in arr ==> r == Err(KeyError([v]))
    {
      var u := ArgUniqueCached();
      var i := SearchLeft(u.unique, v);
      assert Indexes.Probe(u.unique, v) <==> i < |u.unique| && u.unique[i] == v;
      if i < |u.unique| && u.unique[i] == v {
        ArgUniqueRunsAre(arr);
        var g := TakeRun(table, arr, u, i);
        r := Ok(g);
      } else {
        r := Err(KeyError([v]));
      }
    }
  }

  /** `SingleGroupBy(table, name)` for a name the table lacks raises `KeyError`. */
  method NewSingleGroupBy(table: NTab.State, name: string) returns (r: Result<SingleGroupBy, Error>)
    requires table.Valid()
    ensures name !in table.arrs.m ==> r == Err(KeyError([Str(name)]))
    ensures name in table.arrs.m ==>
      r.Ok? && fresh(r.value) && r.value.Valid() && r.value.table == table && r.value.name == name && r.value.cache == None
  {
    if name !in table.arrs.m {
      return Err(KeyError([Str(name)]));
    }
    var g := new SingleGroupBy(table, name);
    r := Ok(g);
  }

  /**
   * `g[v]` as written: it reads `unique[searchsorted(unique, v)]`, which is
   * past the end when `v` is above every value.
   */
  function GetAsWritten(t: NTab.State, a: seq<Value>, v: Value): (r: Result<NTab.State, Error>)
    requires t.Valid() && |a| == t.NumRows()
    ensures r.Err? ==> r.error == KeyError([v]) || r.error == IndexError(|ArgUniqueOf(a).unique|)
    ensures r.Ok? ==> r.value == Group(t, a, v)
  {
    var u := ArgUniqueOf(a);
    match Indexes.ProbeAsWritten(u.unique, v)
    case Err(e) => Err(e)
    case Ok(found) => if found then Ok(Group(t, a, v)) else Err(KeyError([v]))
  }

  /**
   * Grouping `x = [1]` and asking for `2`: as written the lookup raises
   * `IndexError`; the group-by's `Get` raises the `KeyError` a mapping owes.
   */
  lemma GetPastEnd()
    ensures var t := NTab.State(Some(1), ODict.ODict(["x"], map["x" := [Int(1)]]));
      && t.Valid()
      && GetAsWritten(t, [Int(1)], Int(2)) == Err(IndexError(1))
      && Int(2) !in t.arrs.m["x"]
  {
    var a := [Int(1)];
    assert SortedValues(a) == a by {
      assert |SortedValues(a)| == 1 && SortedValues(a)[0] in a;
    }
    assert Dedup(a) == a;
    assert ArgUniqueOf(a).unique == a;
    Indexes.ProbePastEnd();
  }

  // ---- Grouping several tables -------------------------------------------------------

  /**
   * `GroupBy`'s name normalisation: a single name serves every table; a
   * sequence of names must name one array per table.
   */
  function GroupNames(num: nat, names: PyLib.Arg<string>): (r: Result<seq<string>, Error>)
    ensures r.Ok? ==> |r.value| == num
    ensures names.One? ==> r.Ok? && forall k :: 0 <= k < num ==> r.value[k] == names.x
    ensures names.Many? ==> (r.Ok? <==> |names.xs| == num)
    ensures names.Many? && r.Ok? ==> r.value == names.xs
    ensures r.Err? ==> r.error == ValueError("wrong number of names")
  {
    match names
    case One(n) => Ok(seq(num, _ => n))
    case Many(ns) =>
      var ns := PyLib.Tupleize(names);
      if |ns| != num then Err(ValueError("wrong number of names")) else Ok(ns)
  }

  /** Some array holds `v`. */
  predicate InSome(arrays: seq<seq<Value>>, v: Value)
  {
    exists k :: 0 <= k < |arrays| && v in arrays[k]
  }

  /** All the values of the arrays, one after another. */
  function Concat(arrays: seq<seq<Value>>): (all: seq<Value>)
    ensures forall v :: v in all <==> InSome(arrays, v)
  {
    if arrays == [] then []
    else
      var rest := Concat(arrays[1..]);
      assert forall v :: InSome(arrays, v) <==> v in arrays[0] || InSome(arrays[1..], v) by {
        forall v | InSome(arrays, v) ensures v in arrays[0] || InSome(arrays[1..], v) {
          var k :| 0 <= k < |arrays| && v in arrays[k];
          if k > 0 {
            assert arrays[1..][k - 1] == arrays[k];
          }
        }
        forall v | InSome(arrays[1..], v) ensures InSome(arrays, v) {
          var k :| 0 <= k < |arrays| - 1 && v in arrays[1..][k];
          assert arrays[k + 1] == arrays[1..][k];
        }
        forall v | v in arrays[0] ensures InSome(arrays, v) {
          assert 0 < |arrays|;
        }
      }
      arrays[0] + rest
  }

  /** What `arguniquen` returns: per array a sort order, the distinct values of all arrays, and per value the per-array edges. */
  datatype ArgUniqueN = ArgUniqueN(orders: seq<seq<nat>>, unique: seq<Value>, edges: seq<seq<nat>>)

  /** `nplib.arguniquen(arrays)`. */
  function ArgUniqueNOf(arrays: seq<seq<Value>>): (r: ArgUniqueN)
    ensures |r.orders| == |arrays| && forall k :: 0 <= k < |arrays| ==> r.orders[k] == StableArgsort(arrays[k])
    ensures StrictlyAscending(r.unique)
    ensures forall v :: v in r.unique <==> InSome(arrays, v)
    ensures |r.edges| == |r.unique| + 1
    ensures forall i :: 0 <= i <= |r.unique| ==> |r.edges[i]| == |arrays|
    ensures forall i, k :: 0 <= i <= |r.unique| && 0 <= k < |arrays| ==> r.edges[i][k] == EdgeAt(arrays[k], r.unique, i)
  {
    var u := Dedup(SortedValues(Concat(arrays)));
    ArgUniqueN(
      seq(|arrays|, k requires 0 <= k < |arrays| => StableArgsort(arrays[k])),
      u,
      seq(|u| + 1, i requires 0 <= i <= |u| =>
        seq(|arrays|, k requires 0 <= k < |arrays| => EdgeAt(arrays[k], u, i))))
  }

  /** The distinct values of all arrays cover each one. */
  lemma UniqueNCovers(arrays: seq<seq<Value>>, k: nat)
    requires k < |arrays|
    ensures Covers(ArgUniqueNOf(arrays).unique, arrays[k])
  {
    forall j | 0 <= j < |arrays[k]| ensures arrays[k][j] in ArgUniqueNOf(arrays).unique {
      assert arrays[k][j] in arrays[k];
    }
  }

  /** One array per table, each as long as its table. */
  ghost predicate Grouped(tables: seq<NTab.State>, arrays: seq<seq<Value>>)
  {
    |arrays| == |tables| && forall k :: 0 <= k < |tables| ==> tables[k].Valid() && |arrays[k]| == tables[k].NumRows()
  }

  /** The groups of `v`, one per table. */
  function GroupsFor(tables: seq<NTab.State>, arrays: seq<seq<Value>>, v: Value): (gs: seq<NTab.State>)
    requires Grouped(tables, arrays)
    ensures |gs| == |tables| && forall k :: 0 <= k < |tables| ==> gs[k] == Group(tables[k], arrays[k], v)
  {
    seq(|tables|, k requires 0 <= k < |tables| => Group(tables[k], arrays[k], v))
  }

  /** Run `i` of array `k`: the slice of its sort order between its two edges. */
  function RunN(r: ArgUniqueN, i: nat, k: nat): seq<nat>
    requires i < |r.unique| && |r.edges| == |r.unique| + 1 && k < |r.orders|
    requires k < |r.edges[i]| && k < |r.edges[i + 1]| && r.edges[i][k] <= r.edges[i + 1][k] <= |r.orders[k]|
  {
    r.orders[k][r.edges[i][k]..r.edges[i + 1][k]]
  }

  /** Run `i` of array `k` is exactly the rows of `arrays[k]` holding its value. */
  ghost predicate RunAtN(arrays: seq<seq<Value>>, r: ArgUniqueN, i: nat, k: nat)
    requires i < |r.unique| && |r.edges| == |r.unique| + 1 && k < |r.orders| == |arrays|
    requires k < |r.edges[i]| && k < |r.edges[i + 1]|
  {
    r.edges[i][k] <= r.edges[i + 1][k] <= |r.orders[k]| && RunN(r, i, k) == RowsOf(arrays[k], r.unique[i])
  }

  /** In every array, every run of `r` is exactly the rows holding its value. */
  ghost predicate RunsAreN(arrays: seq<seq<Value>>, r: ArgUniqueN)
  {
    && |r.orders| == |arrays| && |r.edges| == |r.unique| + 1
    && (forall i :: 0 <= i <= |r.unique| ==> |r.edges[i]| == |arrays|)
    && forall i, k :: 0 <= i < |r.unique| && 0 <= k < |arrays| ==> RunAtN(arrays, r, i, k)
  }

  /** `arguniquen(arrays)` decomposes each array into runs over the shared distinct values. */
  lemma ArgUniqueNRunsAre(arrays: seq<seq<Value>>)
    ensures RunsAreN(arrays, ArgUniqueNOf(arrays))
  {
    var r := ArgUniqueNOf(arrays);
    forall i, k | 0 <= i < |r.unique| && 0 <= k < |arrays| ensures RunAtN(arrays, r, i, k) {
      UniqueNCovers(arrays, k);
      RunIsGroup(arrays[k], r.unique, i);
    }
  }

  /** The group of run `i` in table `k`: `_take_rows` of the run. */
  method TakeRunN(tables: seq<NTab.State>, arrays: seq<seq<Value>>, r: ArgUniqueN, i: nat, k: nat) returns (g: NTab.State)
    requires Grouped(tables, arrays) && RunsAreN(arrays, r) && i < |r.unique| && k < |tables|
    ensures g == Group(tables[k], arrays[k], r.unique[i])
  {
    assert RunAtN(arrays, r, i, k);
    g := NTab.TakeRows(tables[k], RunN(r, i, k)).value;
  }

  /** The groups of run `i`, one table at a time, as `g[v]` and `itervalues` zip the tables with their edges. */
  method GroupsAt(tables: seq<NTab.State>, arrays: seq<seq<Value>>, r: ArgUniqueN, i: nat) returns (gs: seq<NTab.State>)
    requires Grouped(tables, arrays) && RunsAreN(arrays, r) && i < |r.unique|
    ensures gs == GroupsFor(tables, arrays, r.unique[i])
  {
    ghost var want := GroupsFor(tables, arrays, r.unique[i]);
    gs := [];
    for k := 0 to |tables|
      invariant gs == want[..k]
    {
      var g := TakeRunN(tables, arrays, r, i, k);
      gs := gs + [g];
    }
    assert gs == want;
  }

  /** `itervalues()`: walks the edge pairs, taking each run's groups. */
  method RunGroupsN(tables: seq<NTab.State>, arrays: seq<seq<Value>>, r: ArgUniqueN) returns (groups: seq<seq<NTab.State>>)
    requires Grouped(tables, arrays) && RunsAreN(arrays, r)
    ensures |groups| == |r.unique|
    ensures forall i :: 0 <= i < |groups| ==> groups[i] == GroupsFor(tables, arrays, r.unique[i])
  {
    ghost var want := seq(|r.unique|, i requires 0 <= i < |r.unique| => GroupsFor(tables, arrays, r.unique[i]));
    groups := [];
    for i := 0 to |r.unique|
      invariant groups == want[..i]
    {
      var gs := GroupsAt(tables, arrays, r, i);
      groups := groups + [gs];
    }
    assert groups == want;
  }

  /**
   * `g[v]` of several tables as written: like the single-table lookup, it
   * reads `unique[searchsorted(unique, v)]`, which is past the end when `v` is
   * above every value of every array.
   */
  function GetNAsWritten(tables: seq<NTab.State>, arrays: seq<seq<Value>>, v: Value): (r: Result<seq<NTab.State>, Error>)
    requires Grouped(tables, arrays)
    ensures var u := ArgUniqueNOf(arrays).unique;
      && (r.Ok? <==> InSome(arrays, v))
      && (r.Ok? ==> r.value == GroupsFor(tables, arrays, v))
      && (r.Err? ==> r.error == KeyError([v]) || r.error == IndexError(|u|))
      && (r == Err(IndexError(|u|)) <==> forall x :: 0 <= x < |u| ==> Lt(u[x], v))
  {
    var u := ArgUniqueNOf(arrays);
    LtIrreflexive(v);
    match Indexes.ProbeAsWritten(u.unique, v)
    case Err(e) => Err(e)
    case Ok(found) => if found then Ok(GroupsFor(tables, arrays, v)) else Err(KeyError([v]))
  }

  /**
   * One table `x = [1]` grouped by `x`, asked for `2`: as written the lookup
   * raises `IndexError`, though no array holds `2` and a mapping owes `KeyError`.
   */
  lemma GetNPastEnd()
    ensures var t := NTab.State(Some(1), ODict.ODict(["x"], map["x" := [Int(1)]]));
      && Grouped([t], [[Int(1)]])
      && GetNAsWritten([t], [[Int(1)]], Int(2)) == Err(IndexError(1))
      && !InSome([[Int(1)]], Int(2))
  {
    var t := NTab.State(Some(1), ODict.ODict(["x"], map["x" := [Int(1)]]));
    var arrays := [[Int(1)]];
    assert t.Valid() && Grouped([t], arrays);
    var u := ArgUniqueNOf(arrays).unique;
    assert InSome(arrays, Int(1)) by {
      assert Int(1) in arrays[0];
    }
    assert Int(1) in u;
    forall x | x in u ensures x == Int(1) {
      assert InSome(arrays, x);
    }
    LtIrreflexive(Int(1));
    if |u| >= 2 {
      assert false;
    }
    assert u == [Int(1)];
    Indexes.ProbePastEnd();
  }

  /**
   * `GroupBy(tables, names)`: groups each table by its own array over the
   * distinct values of all of them; a table without a value has an empty group.
   */
  class GroupBy {
    const tables: seq<NTab.State>
    const names: seq<string>
    const arrays: seq<seq<Value>>
    var cache: Option<ArgUniqueN>

    ghost predicate Valid()
      reads this
    {
      && |names| == |tables| && Grouped(tables, arrays)
      && (forall k :: 0 <= k < |tables| ==> names[k] in tables[k].arrs.m && arrays[k] == tables[k].arrs.m[names[k]])
      && (cache.Some? ==> cache.value == ArgUniqueNOf(arrays))
    }

    constructor (tables: seq<NTab.State>, names: seq<string>)
      requires |names| == |tables|
      requires forall k :: 0 <= k < |tables| ==> tables[k].Valid() && names[k] in tables[k].arrs.m
      ensures Valid() && this.tables == tables && this.names == names && cache == None
    {
      this.tables := tables;
      this.names := names;
      this.arrays := seq(|tables|, k requires 0 <= k < |tables| => tables[k].arrs.m[names[k]]);
      cache := None;
    }

    /** `__argunique`: the kept decomposition, or a new one, now kept. */
    method ArgUniqueCached() returns (r: ArgUniqueN)
      requires Valid()
      modifies this`cache
      ensures Valid() && r == ArgUniqueNOf(arrays) && cache == Some(r)
      ensures old(cache).Some? ==> cache == old(cache)
    {
      if cache.Some? {
        r := cache.value;
      } else {
        r := ArgUniqueNOf(arrays);
        cache := Some(r);
      }
    }

    /** `keys()`: the distinct values over all the arrays, ascending. */
    method Keys() returns (ks: seq<Value>)
      requires Valid()
      modifies this`cache
      ensures Valid() && ks == ArgUniqueNOf(arrays).unique
      ensures StrictlyAscending(ks)
      ensures forall v :: v in ks <==> InSome(arrays, v)
    {
      var r := ArgUniqueCached();
      ks := r.unique;
    }

    /** `len(g)`: the number of distinct values over all the arrays. */
    method Len() returns (n: nat)
      requires Valid()
      modifies this`cache
      ensures Valid() && n == |set v | v in Concat(arrays)|
    {
      var r := ArgUniqueCached();
      n := |r.unique|;
      DistinctCount(r.unique);
      assert (set v | v in r.unique) == (set v | v in Concat(arrays));
    }

    /** `g[v]`: the groups of `v`, one per table; `KeyError` when no array holds `v`. */
    method Get(v: Value) returns (r: Result<seq<NTab.State>, Error>)
      requires Valid()
      modifies this`cache
      ensures Valid()
      ensures InSome(arrays, v) ==> r == Ok(GroupsFor(tables, arrays, v))
      ensures !InSome(arrays, v) ==> r == Err(KeyError([v]))
    {
      var u := ArgUniqueCached();
      var i := SearchLeft(u.unique, v);
      assert Indexes.Probe(u.unique, v) <==> i < |u.unique| && u.unique[i] == v;
      if i < |u.unique| && u.unique[i] == v {
        ArgUniqueNRunsAre(arrays);
        var gs := GroupsAt(tables, arrays, u, i);
        r := Ok(gs);
      } else {
        r := Err(KeyError([v]));
      }
    }

    /** `itervalues()`: the groups of each distinct value, in ascending value order. */
    method IterValues() returns (groups: seq<seq<NTab.State>>)
      requires Valid()
      modifies this`cache
      ensures Valid()
      ensures |groups| == |ArgUniqueNOf(arrays).unique|
      ensures forall i :: 0 <= i < |groups| ==> groups[i] == GroupsFor(tables, arrays, ArgUniqueNOf(arrays).unique[i])
    {
      var r := ArgUniqueCached();
      ArgUniqueNRunsAre(arrays);
      groups := RunGroupsN(tables, arrays, r);
    }

    /** `map(fn)`: `fn(v, *groups)` for each distinct value `v`, ascending, `items()` pairing each value with its groups. */
    method Map<R>(fn: (Value, seq<NTab.State>) -> R) returns (rs: seq<R>)
      requires Valid()
      modifies this`cache
      ensures Valid()
      ensures |rs| == |ArgUniqueNOf(arrays).unique|
      ensures forall i :: 0 <= i < |rs| ==>
        rs[i] == fn(ArgUniqueNOf(arrays).unique[i], GroupsFor(tables, arrays, ArgUniqueNOf(arrays).unique[i]))
    {
      var r := ArgUniqueCached();
      ArgUniqueNRunsAre(arrays);
      var groups := RunGroupsN(tables, arrays, r);
      rs := seq(|groups|, i requires 0 <= i < |groups| => fn(r.unique[i], groups[i]));
    }
  }

  /**
   * `GroupBy(tables, names)` as written: it reads `t.arrays`, an attribute no
   * table has, so any non-empty list of tables raises `AttributeError`.
   */
  function GroupByArraysAsWritten(tables: seq<NTab.State>, names: PyLib.Arg<string>): (r: Result<seq<seq<Value>>, Error>)
    ensures GroupNames(|tables|, names).Err? ==> r == Err(GroupNames(|tables|, names).error)
    ensures GroupNames(|tables|, names).Ok? && tables != [] ==> r == Err(AttributeError("arrays"))
  {
    match GroupNames(|tables|, names)
    case Err(e) => Err(e)
    case Ok(_) => if tables == [] then Ok([]) else Err(AttributeError("arrays"))
  }

  /**
   * `GroupBy(tables, names)` reading each table's arrays by name: a name
   * count that does not match raises `ValueError`, the first name its table
   * lacks raises `KeyError`; otherwise a group-by with nothing computed yet.
   */
  method NewGroupBy(tables: seq<NTab.State>, names: PyLib.Arg<string>) returns (r: Result<GroupBy, Error>)
    requires forall k :: 0 <= k < |tables| ==> tables[k].Valid()
    ensures GroupNames(|tables|, names).Err? ==> r == Err(GroupNames(|tables|, names).error)
    ensures GroupNames(|tables|, names).Ok? ==> var ns := GroupNames(|tables|, names).value;
      && (r.Ok? <==> forall k :: 0 <= k < |tables| ==> ns[k] in tables[k].arrs.m)
      && (r.Ok? ==> fresh(r.value) && r.value.Valid() && r.value.tables == tables && r.value.names == ns)
      && (r.Err? ==> exists k :: 0 <= k < |tables| && ns[k] !in tables[k].arrs.m && r.error == KeyError([Str(ns[k])]))
  {
    var given := GroupNames(|tables|, names);
    if given.Err? {
      return Err(given.error);
    }
    var ns := given.value;
    for k := 0 to |tables|
      invariant forall k' :: 0 <= k' < k ==> ns[k'] in tables[k'].arrs.m
    {
      if ns[k] !in tables[k].arrs.m {
        return Err(KeyError([Str(ns[k])]));
      }
    }
    var g := new GroupBy(tables, ns);
    r := Ok(g);
  }

  /** One table `x = [1]` grouped by `x`: as written construction raises, while the corrected one succeeds. */
  lemma GroupByArraysFails()
    ensures var t := NTab.State(Some(1), ODict.ODict(["x"], map["x" := [Int(1)]]));
      && t.Valid()
      && GroupByArraysAsWritten([t], PyLib.One("x")) == Err(AttributeError("arrays"))
      && "x" in t.arrs.m
  {
  }
}
