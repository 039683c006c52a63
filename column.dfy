/**
 * `Column`: a one-dimensional array with a lazily computed, cached stable
 * argsort. Columns are objects: tables and indices share them, and equality
 * short-cuts on identity.
 */
module Columns {
  import opened Wrappers
  import opened Values
  import opened Errors
  import opened Sorting
  import opened ODict

  /**
   * What `np.asarray` makes of an argument: a one-dimensional array with its
   * elements, or an array of another rank, of which only the shape matters.
   */
  datatype NdArray = Vector(items: seq<Value>) | Other(shape: seq<nat>)

  /** `len(arr)`: the first extent; a zero-dimensional array has none. */
  function Len(a: NdArray): (r: Option<nat>)
    ensures a.Vector? ==> r == Some(|a.items|)
    ensures r.None? <==> a.Other? && |a.shape| == 0
  {
    match a
    case Vector(items) => Some(|items|)
    case Other(shape) => if |shape| == 0 then None else Some(shape[0])
  }

  class Column {
    const arr: seq<Value>
    /** The `lazy_property` slot for `sorter`. */
    var sorterCache: Option<seq<nat>>

    ghost predicate Valid()
      reads this
    {
      sorterCache.Some? ==> sorterCache.value == StableArgsort(arr)
    }

    constructor (items: seq<Value>)
      ensures arr == items && sorterCache == None && Valid()
    {
      arr := items;
      sorterCache := None;
    }

    /** `sorter`: the stable argsort, computed on first use and then returned from the cache. */
    method Sorter() returns (s: seq<nat>)
      requires Valid()
      modifies this`sorterCache
      ensures Valid() && sorterCache == Some(s)
      ensures IsStableOrder(Singletons(arr), s)
      ensures old(sorterCache).Some? ==> s == old(sorterCache).value
    {
      if sorterCache.Some? {
        s := sorterCache.value;
      } else {
        s := StableArgsort(arr);
        sorterCache := Some(s);
      }
    }

    /**
     * `self == other`: true for the same object without looking at elements;
     * otherwise the element comparison `nplib.same`, whose outcome is `same`.
     */
    function Equals(other: Column, same: bool): (r: bool)
      ensures other == this ==> r
      ensures other != this ==> r == same
    {
      other == this || same
    }
  }

  /** `Column(arr)`: converts, then rejects anything that is not one-dimensional. */
  method NewColumn(a: NdArray) returns (r: Result<Column, Error>)
    ensures r.Ok? <==> a.Vector?
    ensures r.Ok? ==> fresh(r.value) && r.value.arr == a.items && r.value.sorterCache == None
    ensures r.Err? ==> r.error == ValueError("not one-dimensional")
  {
    if a.Vector? {
      var c := new Column(a.items);
      r := Ok(c);
    } else {
      r := Err(ValueError("not one-dimensional"));
    }
  }

  /** An argument where a column is expected: an existing `Column` or anything `np.asarray` accepts. */
  datatype ColumnArg = Col(col: Column) | Arr(nd: NdArray)

  /** Whether `Column.wrap` accepts the argument. */
  predicate Wraps(a: ColumnArg)
  {
    a.Col? || a.nd.Vector?
  }

  /** The elements of the column `Column.wrap` makes of an accepted argument. */
  function WrappedItems(a: ColumnArg): seq<Value>
    requires Wraps(a)
  {
    if a.Col? then a.col.arr else a.nd.items
  }

  /** `Column.wrap(obj)`: a `Column` is returned as it is, anything else becomes a new one. */
  method Wrap(obj: ColumnArg) returns (r: Result<Column, Error>)
    ensures obj.Col? ==> r == Ok(obj.col)
    ensures r.Ok? <==> Wraps(obj)
    ensures r.Ok? ==> r.value.arr == WrappedItems(obj)
    ensures r.Ok? && obj.Arr? ==> fresh(r.value) && r.value.sorterCache == None
    ensures r.Err? ==> r.error == ValueError("not one-dimensional")
  {
    if obj.Col? {
      r := Ok(obj.col);
    } else {
      r := NewColumn(obj.nd);
    }
  }

  /** `wrap` is idempotent: wrapping what `wrap` returned gives back the same object. */
  method WrapTwice(obj: ColumnArg) returns (first: Result<Column, Error>, second: Result<Column, Error>)
    ensures first.Ok? ==> second == first
  {
    first := Wrap(obj);
    if first.Ok? {
      second := Wrap(Col(first.value));
    } else {
      second := first;
    }
  }

  // ---- Wrapping a dict of arguments --------------------------------------------

  /** Every argument is a column or a one-dimensional array. */
  predicate AllWrap(d: ODict<ColumnArg>)
  {
    forall n :: n in d.m ==> Wraps(d.m[n])
  }

  /** The arrays of the columns made from the arguments, in name order. */
  function ArgArrs(d: ODict<ColumnArg>): (arrs: seq<seq<Value>>)
    requires d.Valid() && AllWrap(d)
    ensures |arrs| == |d.names|
    ensures forall j :: 0 <= j < |d.names| ==> arrs[j] == WrappedItems(d.m[d.names[j]])
  {
    seq(|d.names|, j requires 0 <= j < |d.names| => WrappedItems(d.m[d.names[j]]))
  }

  /** The existing columns among the arguments. */
  function Given(d: ODict<ColumnArg>): set<Column>
  {
    set n | n in d.m && d.m[n].Col? :: d.m[n].col
  }

  /** The dict comprehension of `Index.__init__`: `Column.wrap` applied to every argument in name order. */
  method WrapAll(d: ODict<ColumnArg>) returns (r: Result<seq<Column>, Error>)
    requires d.Valid()
    requires forall c :: c in Given(d) ==> c.Valid()
    ensures r.Ok? <==> AllWrap(d)
    ensures r.Err? ==> r.error == ValueError("not one-dimensional")
    ensures r.Ok? ==> |r.value| == |d.names|
    ensures r.Ok? ==> forall c :: 0 <= c < |d.names| ==> r.value[c].arr == WrappedItems(d.m[d.names[c]])
    ensures r.Ok? ==> forall c :: 0 <= c < |d.names| ==>
      r.value[c].Valid() && (r.value[c] in Given(d) || fresh(r.value[c]))
  {
    var cols: seq<Column> := [];
    for j := 0 to |d.names|
      invariant |cols| == j
      invariant forall c :: 0 <= c < j ==> Wraps(d.m[d.names[c]])
      invariant forall c :: 0 <= c < j ==> cols[c].arr == WrappedItems(d.m[d.names[c]])
      invariant forall c :: 0 <= c < j ==> cols[c].Valid() && (cols[c] in Given(d) || fresh(cols[c]))
    {
      var arg := d.m[d.names[j]];
      var w := Wrap(arg);
      if w.Err? {
        return Err(w.error);
      }
      if arg.Col? {
        assert w.value in Given(d);
      }
      cols := cols + [w.value];
    }
    assert AllWrap(d);
    r := Ok(cols);
  }
}
