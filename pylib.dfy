/**
 * Small Python helpers the package relies on: wrapping arguments in tuples,
 * normalising negative indices, `all_equal`, `sort_as`, `list.index` and
 * Python's slice semantics.
 */
module PyLib {
  import opened Wrappers
  import opened Values
  import opened Errors

  /**
   * An argument the code accepts either as one object or as an iterable of
   * objects. A `str` is one object here even though Python can iterate it.
   */
  datatype Arg<T> = One(x: T) | Many(xs: seq<T>)

  /** `tupleize(obj)`: a `str` or non-iterable object becomes a 1-tuple, any other iterable is converted element-wise. */
  function Tupleize<T>(a: Arg<T>): (r: seq<T>)
    ensures a.One? ==> r == [a.x]
    ensures a.Many? ==> r == a.xs
  {
    match a
    case One(x) => [x]
    case Many(xs) => xs
  }

  predicate Distinct<T(==)>(s: seq<T>)
  {
    forall i, j :: 0 <= i < j < |s| ==> s[i] != s[j]
  }

  // ---------------------------------------------------------------------------
  // normalize_index

  /** `normalize_index(index, length)`: a position counted from either end, or an `IndexError`. */
  function NormalizeIndex(index: int, length: nat): (r: Result<nat, Error>)
    ensures r.Ok? <==> -(length as int) <= index < length
    ensures r.Ok? ==> r.value < length && r.value % length == index % length
    ensures r.Ok? && index >= 0 ==> r.value == index
    ensures r.Err? ==> r.error == IndexError(index)
  {
    if 0 <= index < length then Ok(index)
    else if -(length as int) <= index < 0 then
      assert (index + length) % length == index % length by {
        assert index + length == index + 1 * length;
      }
      Ok(index + length)
    else Err(IndexError(index))
  }

  // ---------------------------------------------------------------------------
  // all_equal

  /** `functools.reduce(check, rest, acc)`: `check` raises on the first value differing from `acc` and otherwise keeps `acc`. */
  function ReduceCheck<T(==)>(acc: T, rest: seq<T>): (r: Result<T, Error>)
    ensures r.Ok? <==> forall i :: 0 <= i < |rest| ==> rest[i] == acc
    ensures r.Ok? ==> r.value == acc
    ensures r.Err? ==> r.error == ValueError("not equal")
  {
    if rest == [] then Ok(acc)
    else if acc != rest[0] then Err(ValueError("not equal"))
    else
      var r := ReduceCheck(acc, rest[1..]);
      assert forall i :: 1 <= i < |rest| ==> rest[i] == rest[1..][i - 1];
      r
  }

  /** `all_equal(items, default)`: the common value, a `ValueError` when two differ, and for no items the default or a `TypeError`. */
  function AllEqual<T(==)>(items: seq<T>, default: Option<T>): (r: Result<T, Error>)
    ensures items != [] ==> (r.Ok? <==> forall i :: 0 <= i < |items| ==> items[i] == items[0])
    ensures items != [] && r.Ok? ==> r.value == items[0]
    ensures items != [] && r.Err? ==> r.error == ValueError("not equal")
    ensures items == [] && default.Some? ==> r == Ok(default.value)
    ensures items == [] && default.None? ==> r == Err(TypeError("no items"))
  {
    if items == [] then
      if default.None? then Err(TypeError("no items")) else Ok(default.value)
    else
      assert forall i :: 1 <= i < |items| ==> items[i] == items[1..][i - 1];
      ReduceCheck(items[0], items[1..])
  }

  // ---------------------------------------------------------------------------
  // list.index and sort_as

  /** `s.index(k)` when `k` occurs; `|s|` when it does not (where Python raises `ValueError`). */
  function IndexOf<T(==)>(s: seq<T>, k: T): (i: nat)
    ensures i <= |s|
    ensures i < |s| <==> k in s
    ensures i < |s| ==> s[i] == k
    ensures forall j :: 0 <= j < i ==> s[j] != k
  {
    if s == [] then 0
    else if s[0] == k then 0
    else 1 + IndexOf(s[1..], k)
  }

  /** `del s[i]`. */
  function RemoveAt<T>(s: seq<T>, i: nat): (r: seq<T>)
    requires i < |s|
    ensures |r| == |s| - 1
    ensures multiset(r) + multiset{s[i]} == multiset(s)
  {
    assert s == s[..i] + [s[i]] + s[i + 1..];
    s[..i] + s[i + 1..]
  }

  /**
   * What `sort_as(items, order)` generates: each entry of `order` still among
   * the remaining items is emitted and one copy of it removed; the items left
   * over follow in their original order.
   */
  function SortAsSpec<T(==)>(items: seq<T>, order: seq<T>): seq<T>
    decreases |order|
  {
    if order == [] then items
    else if order[0] in items then
      [order[0]] + SortAsSpec(RemoveAt(items, IndexOf(items, order[0])), order[1..])
    else SortAsSpec(items, order[1..])
  }

  /** `sort_as`: the loop over `order` deleting from a copy of `items`, then the leftovers. */
  method SortAs<T(==)>(items: seq<T>, order: seq<T>) returns (r: seq<T>)
    ensures r == SortAsSpec(items, order)
  {
    var rest := items;
    var out := [];
    for i := 0 to |order|
      invariant out + SortAsSpec(rest, order[i..]) == SortAsSpec(items, order)
    {
      assert order[i..][0] == order[i] && order[i..][1..] == order[i + 1..];
      var j := IndexOf(rest, order[i]);
      if j < |rest| {
        out := out + [order[i]];
        rest := RemoveAt(rest, j);
      }
    }
    r := out + rest;
  }

  /** `sort_as` only reorders: its output is a permutation of `items`. */
  lemma {:induction false} SortAsPermutes<T>(items: seq<T>, order: seq<T>)
    ensures multiset(SortAsSpec(items, order)) == multiset(items)
    decreases |order|
  {
    if order != [] {
      if order[0] in items {
        var j := IndexOf(items, order[0]);
        SortAsPermutes(RemoveAt(items, j), order[1..]);
      } else {
        SortAsPermutes(items, order[1..]);
      }
    }
  }

  /** The entries of `a` that occur in `b`, in `a`'s order. */
  function Common<T(==)>(a: seq<T>, b: seq<T>): (r: seq<T>)
    ensures forall i :: 0 <= i < |r| ==> r[i] in a && r[i] in b
    ensures forall i :: 0 <= i < |a| && a[i] in b ==> a[i] in r
    ensures |r| <= |a|
    ensures Distinct(a) ==> Distinct(r)
  {
    if a == [] then []
    else
      var rest := Common(a[1..], b);
      assert Distinct(a) ==> Distinct(a[1..]) && a[0] !in a[1..];
      if a[0] in b then [a[0]] + rest else rest
  }

  /** The entries of `a` that do not occur in `b`, in `a`'s order. */
  function Missing<T(==)>(a: seq<T>, b: seq<T>): (r: seq<T>)
    ensures forall i :: 0 <= i < |r| ==> r[i] in a && r[i] !in b
    ensures forall i :: 0 <= i < |a| && a[i] !in b ==> a[i] in r
    ensures |r| <= |a|
    ensures Distinct(a) ==> Distinct(r)
  {
    if a == [] then []
    else
      var rest := Missing(a[1..], b);
      assert Distinct(a) ==> Distinct(a[1..]) && a[0] !in a[1..];
      if a[0] !in b then [a[0]] + rest else rest
  }

  /** A non-empty sequence is its head followed by its tail, also in front of another sequence. */
  lemma SplitHead<T>(a: seq<T>, b: seq<T>)
    requires a != []
    ensures a == [a[0]] + a[1..] && a + b == [a[0]] + (a[1..] + b)
  {
    assert (a + b)[1..] == a[1..] + b;
  }

  /** The inductive step of a concatenation law: one front part shared by both sides. */
  lemma JoinStep<T>(whole: seq<T>, first: seq<T>, restWhole: seq<T>, restFirst: seq<T>, second: seq<T>, front: seq<T>)
    requires whole == front + restWhole && first == front + restFirst && restWhole == restFirst + second
    ensures whole == first + second
  {
    assert front + (restFirst + second) == (front + restFirst) + second;
  }

  /** `Common` keeps `a`'s order: it works entry by entry, keeping an entry just when `b` has it. */
  lemma {:induction false} CommonConcat<T>(a1: seq<T>, a2: seq<T>, b: seq<T>)
    ensures Common(a1 + a2, b) == Common(a1, b) + Common(a2, b)
  {
    if a1 == [] {
      assert a1 + a2 == a2;
    } else {
      var h, t := a1[0], a1[1..];
      CommonConcat(t, a2, b);
      SplitHead(a1, a2);
      CommonCons(h, t + a2, b);
      CommonCons(h, t, b);
      JoinStep(Common(a1 + a2, b), Common(a1, b), Common(t + a2, b), Common(t, b), Common(a2, b), if h in b then [h] else []);
    }
  }

  /** `Common` of an entry followed by more: that entry's verdict, then the rest. */
  lemma CommonCons<T>(h: T, rest: seq<T>, b: seq<T>)
    ensures Common([h] + rest, b) == (if h in b then [h] else []) + Common(rest, b)
  {
    assert ([h] + rest)[1..] == rest;
  }

  /** `Missing` keeps `a`'s order: it works entry by entry, keeping an entry just when `b` lacks it. */
  lemma {:induction false} MissingConcat<T>(a1: seq<T>, a2: seq<T>, b: seq<T>)
    ensures Missing(a1 + a2, b) == Missing(a1, b) + Missing(a2, b)
  {
    if a1 == [] {
      assert a1 + a2 == a2;
    } else {
      var h, t := a1[0], a1[1..];
      MissingConcat(t, a2, b);
      SplitHead(a1, a2);
      MissingCons(h, t + a2, b);
      MissingCons(h, t, b);
      JoinStep(Missing(a1 + a2, b), Missing(a1, b), Missing(t + a2, b), Missing(t, b), Missing(a2, b), if h in b then [] else [h]);
    }
  }

  /** `Missing` of an entry followed by more: that entry's verdict, then the rest. */
  lemma MissingCons<T>(h: T, rest: seq<T>, b: seq<T>)
    ensures Missing([h] + rest, b) == (if h in b then [] else [h]) + Missing(rest, b)
  {
    assert ([h] + rest)[1..] == rest;
  }

  lemma {:induction false} CommonSameMembers<T>(a: seq<T>, b1: seq<T>, b2: seq<T>)
    requires forall x :: x in a ==> (x in b1 <==> x in b2)
    ensures Common(a, b1) == Common(a, b2)
  {
    if a != [] {
      assert forall x :: x in a[1..] ==> x in a;
      CommonSameMembers(a[1..], b1, b2);
    }
  }

  lemma {:induction false} MissingSameMembers<T>(a: seq<T>, b1: seq<T>, b2: seq<T>)
    requires forall x :: x in a ==> (x in b1 <==> x in b2)
    ensures Missing(a, b1) == Missing(a, b2)
  {
    if a != [] {
      assert forall x :: x in a[1..] ==> x in a;
      MissingSameMembers(a[1..], b1, b2);
    }
  }

  /** Deleting an entry that `b` excludes anyway does not change what `Missing` keeps. */
  lemma {:induction false} MissingRemoveAt<T>(a: seq<T>, i: nat, b: seq<T>)
    requires i < |a| && a[i] in b
    ensures Missing(RemoveAt(a, i), b) == Missing(a, b)
  {
    if i > 0 {
      assert RemoveAt(a, i) == [a[0]] + RemoveAt(a[1..], i - 1);
      MissingRemoveAt(a[1..], i - 1, b);
    } else {
      assert RemoveAt(a, i) == a[1..];
    }
  }

  lemma RemoveAtDistinct<T>(a: seq<T>, i: nat)
    requires i < |a| && Distinct(a)
    ensures Distinct(RemoveAt(a, i))
    ensures forall x :: x in RemoveAt(a, i) <==> x in a && x != a[i]
  {
    var r := RemoveAt(a, i);
    assert forall p :: 0 <= p < |r| ==> r[p] == if p < i then a[p] else a[p + 1];
    forall x | x in a && x != a[i] ensures x in r {
      var p :| 0 <= p < |a| && a[p] == x;
      assert r[if p < i then p else p - 1] == x;
    }
  }

  /**
   * With no repeated items and no repeated entries in `order`, `sort_as` yields
   * the entries of `order` found among the items, in `order`'s order, followed by
   * the remaining items in their original order.
   */
  lemma {:induction false} SortAsDistinct<T>(items: seq<T>, order: seq<T>)
    requires Distinct(items) && Distinct(order)
    ensures SortAsSpec(items, order) == Common(order, items) + Missing(items, order)
    decreases |order|
  {
    if order == [] {
      MissingNothing(items);
    } else if order[0] in items {
      SortAsDistinctHit(items, order);
    } else {
      var tail := order[1..];
      assert Distinct(tail);
      SortAsDistinct(items, tail);
      MissingSameMembers(items, order, tail);
    }
  }

  lemma {:induction false} SortAsDistinctHit<T>(items: seq<T>, order: seq<T>)
    requires Distinct(items) && Distinct(order) && order != [] && order[0] in items
    ensures SortAsSpec(items, order) == Common(order, items) + Missing(items, order)
    decreases |order|, 1
  {
    var o, tail := order[0], order[1..];
    var rest := RemoveAt(items, IndexOf(items, o));
    var c, m := Common(tail, items), Missing(items, order);
    assert SortAsSpec(items, order) == [o] + SortAsSpec(rest, tail) by { }
    assert SortAsSpec(rest, tail) == c + m by { SortAsDistinctRest(items, order); }
    assert Common(order, items) == [o] + c by { }
    ConsAssoc(o, c, m);
  }

  lemma ConsAssoc<T>(o: T, c: seq<T>, m: seq<T>)
    ensures [o] + (c + m) == ([o] + c) + m
  {
  }

  lemma {:induction false} SortAsDistinctRest<T>(items: seq<T>, order: seq<T>)
    requires Distinct(items) && Distinct(order) && order != [] && order[0] in items
    ensures SortAsSpec(RemoveAt(items, IndexOf(items, order[0])), order[1..])
      == Common(order[1..], items) + Missing(items, order)
    decreases |order|, 0
  {
    var o, tail := order[0], order[1..];
    assert Distinct(tail);
    assert o !in tail;
    var j := IndexOf(items, o);
    var rest := RemoveAt(items, j);
    RemoveAtDistinct(items, j);
    SortAsDistinct(rest, tail);
    CommonSameMembers(tail, rest, items);
    MissingRemoveAt(items, j, order);
    MissingSameMembers(rest, order, tail);
  }

  lemma {:induction false} MissingNothing<T>(a: seq<T>)
    ensures Missing(a, []) == a
  {
    if a != [] {
      MissingNothing(a[1..]);
    }
  }

  // ---------------------------------------------------------------------------
  // Slices

  /** A Python `slice(start, stop, step)`; `None` is a missing bound. */
  datatype Slice = Slice(start: Option<int>, stop: Option<int>, step: Option<int>)

  function Clamp(x: int, lo: int, hi: int): int
  {
    if x < lo then lo else if x > hi then hi else x
  }

  /** One bound of a slice, resolved as `slice.indices(n)` does. */
  function Bound(b: Option<int>, n: nat, default: int, lo: int, hi: int): int
  {
    match b
    case None => default
    case Some(v) => Clamp(if v < 0 then v + n else v, lo, hi)
  }

  /** `i, i + step, ...` below `stop`. */
  function Up(i: nat, stop: nat, step: nat): (r: seq<nat>)
    requires step > 0
    ensures forall p :: 0 <= p < |r| ==> i <= r[p] < stop
    ensures forall p, q :: 0 <= p < q < |r| ==> r[p] < r[q]
    ensures |r| <= if i < stop then stop - i else 0
    decreases stop - i
  {
    if i < stop then [i] + Up(i + step, stop, step) else []
  }

  /** `i, i - step, ...` above `stop`. */
  function Down(i: int, stop: int, step: nat): (r: seq<nat>)
    requires step > 0 && stop >= -1
    ensures forall p :: 0 <= p < |r| ==> stop < r[p] <= i
    ensures forall p, q :: 0 <= p < q < |r| ==> r[p] > r[q]
    ensures |r| <= if i > stop then i - stop else 0
    decreases i - stop
  {
    if i > stop then [i as nat] + Down(i - step, stop, step) else []
  }

  /** The positions `range(n)[sl]` selects, or the `ValueError` of a zero step. */
  function SliceIndices(sl: Slice, n: nat): (r: Result<seq<nat>, Error>)
    ensures r.Err? <==> sl.step == Some(0)
    ensures r.Ok? ==> forall p :: 0 <= p < |r.value| ==> r.value[p] < n
    ensures r.Ok? ==> Distinct(r.value) && |r.value| <= n
  {
    var step := if sl.step.Some? then sl.step.value else 1;
    if step == 0 then Err(ValueError("slice step cannot be zero"))
    else if step > 0 then
      var start := Bound(sl.start, n, 0, 0, n);
      var stop := Bound(sl.stop, n, n, 0, n);
      Ok(Up(start, stop, step))
    else
      var start := Bound(sl.start, n, n - 1, -1, n - 1);
      var stop := Bound(sl.stop, n, -1, -1, n - 1);
      var r := Down(start, stop, -step);
      assert forall p, q :: 0 <= p < q < |r| ==> r[p] != r[q];
      Ok(r)
  }

  /** `s[idxs]` for in-range positions. */
  function Take<T>(s: seq<T>, idxs: seq<nat>): (r: seq<T>)
    requires forall p :: 0 <= p < |idxs| ==> idxs[p] < |s|
    ensures |r| == |idxs| && forall p :: 0 <= p < |idxs| ==> r[p] == s[idxs[p]]
  {
    seq(|idxs|, p requires 0 <= p < |idxs| => s[idxs[p]])
  }

  /** `s[sl]`. */
  function GetSlice<T>(s: seq<T>, sl: Slice): (r: Result<seq<T>, Error>)
    ensures r.Err? <==> sl.step == Some(0)
    ensures r.Ok? ==> |r.value| <= |s|
    ensures r.Ok? ==> forall x :: x in r.value ==> x in s
  {
    match SliceIndices(sl, |s|)
    case Err(e) => Err(e)
    case Ok(idxs) =>
      var r := Take(s, idxs);
      assert forall x :: x in r ==> x in s by {
        forall p | 0 <= p < |r| ensures r[p] in s { }
      }
      Ok(r)
  }

  /** `s[:]` is `s`. */
  lemma FullSlice<T>(s: seq<T>)
    ensures GetSlice(s, Slice(None, None, None)) == Ok(s)
  {
    UpRange(0, |s|);
    assert SliceIndices(Slice(None, None, None), |s|) == Ok(Up(0, |s|, 1));
    assert Take(s, Up(0, |s|, 1)) == s;
  }

  /** `s[k:]` for `0 <= k <= len(s)` is the suffix from `k`. */
  lemma SuffixSlice<T>(s: seq<T>, k: nat)
    requires k <= |s|
    ensures GetSlice(s, Slice(Some(k), None, None)) == Ok(s[k..])
  {
    UpRange(k, |s|);
    assert SliceIndices(Slice(Some(k), None, None), |s|) == Ok(Up(k, |s|, 1));
    assert Take(s, Up(k, |s|, 1)) == s[k..];
  }

  /** `s[::-1]` is `s` reversed. */
  lemma ReverseSlice<T>(s: seq<T>)
    ensures GetSlice(s, Slice(None, None, Some(-1))).Ok?
    ensures var r := GetSlice(s, Slice(None, None, Some(-1))).value;
      |r| == |s| && forall p :: 0 <= p < |s| ==> r[p] == s[|s| - 1 - p]
  {
    DownRange(|s| - 1);
  }

  lemma {:induction false} UpRange(i: nat, stop: nat)
    requires i <= stop
    ensures |Up(i, stop, 1)| == stop - i
    ensures forall p :: 0 <= p < stop - i ==> Up(i, stop, 1)[p] == i + p
    decreases stop - i
  {
    if i < stop {
      UpRange(i + 1, stop);
    }
  }

  lemma {:induction false} DownRange(i: int)
    requires i >= -1
    ensures |Down(i, -1, 1)| == i + 1
    ensures forall p :: 0 <= p <= i ==> Down(i, -1, 1)[p] == i - p
    decreases i + 1
  {
    if i >= 0 {
      DownRange(i - 1);
    }
  }
}
