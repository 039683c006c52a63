/**
 * `Series`: one column addressed by the row keys of an `Index`. The series
 * shares the index object; its length, keys and lookups are those of the
 * index's rows view.
 */
module SeriesViews {
  import opened Wrappers
  import opened Values
  import opened Errors
  import opened Sorting
  import opened Columns
  import opened Indexes
  import PyLib

  datatype Series = Series(column: Column, index: Index, name: string)
  {
    /** The index is well formed and the column has one value per index row. */
    ghost predicate Valid()
      reads index
    {
      index.Valid() && |column.arr| == index.length
    }

    /** `col`: the wrapped array. */
    function Col(): seq<Value>
    {
      column.arr
    }

    /** `len(series)`: the number of index rows. */
    function Len(): (n: nat)
      ensures n == index.length
    {
      index.length
    }

    /** `keys()` and iteration: the index's row keys, in row order. */
    function Keys(): (keys: seq<Key>)
      requires Rectangular(index.Arrs(), index.length)
      ensures |keys| == Len()
      ensures forall i :: 0 <= i < Len() ==> keys[i] == RowKey(index.Arrs(), index.length, i)
    {
      index.Keys()
    }

    /** `values()`: the column's values in row order. */
    function Values(): (vs: seq<Value>)
      requires |column.arr| == index.length
      ensures |vs| == Len()
      ensures forall i :: 0 <= i < Len() ==> vs[i] == Col()[i]
    {
      column.arr
    }

    /** `items()`: the key of each row paired with the column's value there. */
    function Items(): (items: seq<(Key, Value)>)
      requires Rectangular(index.Arrs(), index.length) && |column.arr| == index.length
      ensures |items| == Len()
      ensures forall i :: 0 <= i < Len() ==> items[i] == (Keys()[i], Values()[i])
    {
      seq(index.length, i requires 0 <= i < index.length => (Keys()[i], Values()[i]))
    }

    /**
     * The outcome of `series[key]`: the column's value at the row the index
     * finds for the key; the index's error when it finds none.
     */
    function At(key: PyLib.Arg<Value>): (r: Result<Value, Error>)
      requires Rectangular(index.Arrs(), index.length) && |column.arr| == index.length
      requires |index.cols| >= 1
      ensures var found := Lookup(Keys(), PyLib.Tupleize(key), |index.cols|);
        && (r.Ok? <==> found.Ok?)
        && (r.Ok? ==> r.value == Col()[found.value])
        && (r.Err? ==> r.error == found.error)
    {
      match Lookup(Keys(), PyLib.Tupleize(key), |index.cols|)
      case Ok(i) => Ok(column.arr[i])
      case Err(e) => Err(e)
    }

    /** `series[key]`: looks the key up in the index's rows, then reads the column there. */
    method Get(key: PyLib.Arg<Value>) returns (r: Result<Value, Error>)
      requires Valid()
      ensures r == At(key)
    {
      var found := index.Get(key);
      match found
      case Ok(i) => r := Ok(column.arr[i]);
      case Err(e) => r := Err(e);
    }
  }

  /**
   * `Series(col, index, name)`: wraps the column, then rejects a column
   * whose length is not the number of index rows.
   */
  method NewSeries(c: ColumnArg, index: Index, name: string) returns (r: Result<Series, Error>)
    requires index.Valid()
    ensures !Wraps(c) ==> r == Err(ValueError("not one-dimensional"))
    ensures Wraps(c) && |WrappedItems(c)| != index.length ==> r == Err(ValueError("wrong length index"))
    ensures Wraps(c) && |WrappedItems(c)| == index.length ==>
      && r.Ok? && r.value.Valid()
      && r.value.Col() == WrappedItems(c) && r.value.index == index && r.value.name == name
      && (c.Col? ==> r.value.column == c.col)
  {
    var w := Wrap(c);
    if w.Err? {
      return Err(w.error);
    }
    if |w.value.arr| != index.length {
      return Err(ValueError("wrong length index"));
    }
    r := Ok(Series(w.value, index, name));
  }

  /** Every item of a series is found again: its key looks up its value. */
  lemma ItemsFound(s: Series)
    requires s.Valid()
    ensures forall i :: 0 <= i < |s.Items()| ==> s.At(PyLib.Many(s.Items()[i].0)) == Ok(s.Items()[i].1)
  {
    forall i | 0 <= i < |s.Items()| ensures s.At(PyLib.Many(s.Items()[i].0)) == Ok(s.Items()[i].1) {
      LookupFinds(s.Keys(), |s.index.cols|, i);
    }
  }

  /** A key that no row has is reported by the index's `KeyError`, carrying the key as a tuple. */
  lemma AtMissing(s: Series, ks: Key)
    requires s.Valid() && |ks| == |s.index.cols|
    requires forall i :: 0 <= i < s.Len() ==> s.Keys()[i] != ks
    ensures s.At(PyLib.Many(ks)) == Err(KeyError(ks))
  {
    LookupMissing(s.Keys(), ks, |s.index.cols|);
  }

  // ---- The views as written ----------------------------------------------------------

  /**
   * `len(series)` as written: it asks the `Index` itself for its length, and
   * an `Index` defines no `__len__`, so Python raises `TypeError`. Iteration
   * and `series[key]` go to the `Index` the same way and fail alike.
   */
  function LenAsWritten(s: Series): (r: Result<nat, Error>)
    ensures r.Err? && r.error.TypeError?
  {
    Err(TypeError("object of type 'Index' has no len()"))
  }

  /** `series[key]` as written: an `Index` is not subscriptable. */
  function GetAsWritten(s: Series, key: PyLib.Arg<Value>): (r: Result<Value, Error>)
    ensures r.Err? && r.error.TypeError?
  {
    Err(TypeError("'Index' object is not subscriptable"))
  }

  /**
   * On any well-formed series the views as written fail, while the views over
   * the index's rows give the row count and find every row's value.
   */
  lemma ViewsAsWrittenFail(s: Series)
    requires s.Valid() && s.Len() > 0
    ensures LenAsWritten(s).Err? && s.Len() == s.index.length
    ensures GetAsWritten(s, PyLib.Many(s.Keys()[0])).Err? && s.At(PyLib.Many(s.Keys()[0])) == Ok(s.Col()[0])
  {
    LookupFinds(s.Keys(), |s.index.cols|, 0);
  }
}
