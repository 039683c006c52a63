/**
 * `Relation`: a table whose rows are addressed by the keys of an `Index` of
 * the same length. Its columns are `Series` sharing that index; its rows are
 * the table's `Row`s, found through the index.
 */
module Relations {
  import opened Wrappers
  import opened Values
  import opened Errors
  import opened Sorting
  import opened ODict
  import opened Columns
  import opened Indexes
  import opened Tables
  import opened SeriesViews
  import PyLib
  import Containers

  datatype Relation = Relation(index: Index, table: Table)
  {
    /** A well-formed index and table with as many index rows as table rows. */
    ghost predicate Valid()
      reads index
    {
      index.Valid() && table.Valid() && index.length == table.length
    }

    // ---- The cols view -------------------------------------------------------------

    /** `cols.keys()` and iteration over `cols`: the table's names, in order. */
    function ColNames(): (ns: seq<string>)
      ensures ns == table.cols.names
    {
      table.cols.names
    }

    /** `cols.items()`: each name with the `Series` over its column and the relation's index. */
    function ColItems(): (items: seq<(string, Series)>)
      requires table.cols.Valid()
      ensures |items| == |ColNames()|
      ensures forall j :: 0 <= j < |items| ==>
        items[j].0 == ColNames()[j] && items[j].1 == Series(table.cols.m[ColNames()[j]], index, ColNames()[j])
    {
      var names := table.cols.names;
      seq(|names|, j requires 0 <= j < |names| => (names[j], Series(table.cols.m[names[j]], index, names[j])))
    }

    /**
     * `cols.get(key, default)`: the `Series` of the named column, or of the
     * column at a position counted from the end when negative. A missing
     * name or position raises `KeyError`, or gives the default when there is one.
     */
    function GetSeries(key: ColKey, default: Option<Series>): (r: Result<Series, Error>)
      requires table.cols.Valid()
      ensures key.ByName? && key.name in table.cols.m ==>
        r == Ok(Series(table.cols.m[key.name], index, key.name))
      ensures key.ByPosition? && -|ColNames()| <= key.pos < |ColNames()| ==>
        var j := if key.pos < 0 then key.pos + |ColNames()| else key.pos;
        r == Ok(Series(table.cols.m[ColNames()[j]], index, ColNames()[j]))
      ensures r.Err? <==> default.None? && Missing(table, key)
      ensures r.Err? ==> r.error == KeyError([if key.ByName? then Str(key.name) else Int(key.pos)])
      ensures default.Some? && Missing(table, key) ==> r == Ok(default.value)
    {
      var names := table.cols.names;
      match key
      case ByName(n) =>
        if n in table.cols.m then Ok(Series(table.cols.m[n], index, n))
        else if default.Some? then Ok(default.value)
        else Err(KeyError([Str(n)]))
      case ByPosition(i) =>
        match PyLib.NormalizeIndex(i, |names|)
        case Ok(j) => Ok(Series(table.cols.m[names[j]], index, names[j]))
        case Err(_) =>
          if default.Some? then Ok(default.value)
          else Err(KeyError([Int(i)]))
    }

    // ---- The rows view -------------------------------------------------------------

    /** `len(rows)`: the number of index rows. */
    function RowCount(): (n: nat)
      ensures n == index.length
    {
      index.length
    }

    /** `rows.keys()` and iteration over `rows`: the index's row keys, in row order. */
    function RowKeys(): (keys: seq<Key>)
      requires Rectangular(index.Arrs(), index.length)
      ensures |keys| == RowCount()
      ensures forall i :: 0 <= i < RowCount() ==> keys[i] == RowKey(index.Arrs(), index.length, i)
    {
      index.Keys()
    }

    /** `rows.values()`: the table's rows, in row order. */
    function RowValues(): (rows: seq<Row>)
      requires table.cols.Valid()
      ensures |rows| == RowCount()
      ensures forall i :: 0 <= i < RowCount() ==> rows[i] == Row(i, table.Arrs())
    {
      seq(index.length, i requires 0 <= i < index.length => Row(i, table.Arrs()))
    }

    /** `rows.items()`: the key of each row paired with the table's row at that position. */
    function RowItems(): (items: seq<(Key, Row)>)
      requires Rectangular(index.Arrs(), index.length) && table.cols.Valid()
      ensures |items| == RowCount()
      ensures forall i :: 0 <= i < RowCount() ==> items[i] == (RowKeys()[i], RowValues()[i])
    {
      seq(index.length, i requires 0 <= i < index.length => (RowKeys()[i], RowValues()[i]))
    }

    /** The outcome of `rows[key]`: the table's row at the position the index finds; the index's error otherwise. */
    function RowAtKey(key: PyLib.Arg<Value>): (r: Result<Row, Error>)
      requires Rectangular(index.Arrs(), index.length) && |index.cols| >= 1 && table.cols.Valid()
      ensures var found := Lookup(RowKeys(), PyLib.Tupleize(key), |index.cols|);
        && (r.Ok? <==> found.Ok?)
        && (r.Ok? ==> r.value == Row(found.value, table.Arrs()) && found.value < RowCount())
        && (r.Err? ==> r.error == found.error)
    {
      match Lookup(RowKeys(), PyLib.Tupleize(key), |index.cols|)
      case Ok(i) => Ok(Row(i, table.Arrs()))
      case Err(e) => Err(e)
    }

    /** `rows[key]`: the index finds the position, the table gives the row. */
    method GetRow(key: PyLib.Arg<Value>) returns (r: Result<Row, Error>)
      requires Valid()
      ensures r == RowAtKey(key)
      ensures r.Ok? ==> r.value.Valid()
    {
      var found := index.Get(key);
      match found
      case Ok(i) =>
        r := Ok(Row(i, table.Arrs()));
        assert forall n :: n in table.Arrs().m ==> |table.Arrs().m[n]| == table.length;
      case Err(e) => r := Err(e);
    }
  }

  /** `Relation(index, table)`: rejects an index whose row count is not the table's. */
  function NewRelation(index: Index, table: Table): (r: Result<Relation, Error>)
    requires index.Valid() && table.Valid()
    reads index
    ensures r.Ok? <==> index.length == table.length
    ensures r.Ok? ==> r.value.Valid() && r.value.index == index && r.value.table == table
    ensures r.Err? ==> r.error == ValueError("index and table not the same length")
  {
    if index.length != table.length then Err(ValueError("index and table not the same length"))
    else Ok(Relation(index, table))
  }

  /** Every column is found by name and by position, as the `Series` that `cols.items()` lists for it. */
  lemma ColItemsFound(rel: Relation, j: nat)
    requires rel.table.cols.Valid() && j < |rel.ColNames()|
    ensures var item := rel.ColItems()[j];
      && rel.GetSeries(ByName(item.0), None) == Ok(item.1)
      && rel.GetSeries(ByPosition(j), None) == Ok(item.1)
      && rel.GetSeries(ByPosition(j - |rel.ColNames()|), None) == Ok(item.1)
  {
    assert rel.ColNames()[j] in rel.table.cols.m;
  }

  /** The series `cols.get` returns is well formed, over the array the table's own `cols.get` returns. */
  lemma SeriesOfColumn(rel: Relation, key: ColKey)
    requires rel.Valid() && !Missing(rel.table, key)
    ensures rel.GetSeries(key, None).Ok? && rel.GetSeries(key, None).value.Valid()
    ensures rel.GetSeries(key, None).value.Col() == GetCol(rel.table, key, None).value
  {
    var names := rel.table.cols.names;
    if key.ByPosition? {
      var j := if key.pos < 0 then key.pos + |names| else key.pos;
      assert names[j] in rel.table.cols.m;
    }
  }

  /** Every item of `rows` is found again: its key gives its row. */
  lemma RowItemsFound(rel: Relation)
    requires rel.Valid()
    ensures forall i :: 0 <= i < |rel.RowItems()| ==>
      rel.RowAtKey(PyLib.Many(rel.RowItems()[i].0)) == Ok(rel.RowItems()[i].1)
  {
    forall i | 0 <= i < |rel.RowItems()|
      ensures rel.RowAtKey(PyLib.Many(rel.RowItems()[i].0)) == Ok(rel.RowItems()[i].1)
    {
      LookupFinds(rel.RowKeys(), |rel.index.cols|, i);
    }
  }

  // ---- Column selection ---------------------------------------------------------------

  /**
   * `cols.select(sel)`: the relation of the same index over the selected
   * columns. Selecting no column gives a table of no rows, which the
   * relation's length check then rejects unless the index is empty too.
   */
  function SelectRelation(rel: Relation, sel: Containers.Selector): (r: Result<Relation, Error>)
    requires rel.Valid()
    reads rel.index
    ensures SelectCols(rel.table, sel).Err? ==> r == Err(SelectCols(rel.table, sel).error)
    ensures SelectCols(rel.table, sel).Ok? ==> r == NewRelation(rel.index, SelectCols(rel.table, sel).value)
  {
    match SelectCols(rel.table, sel)
    case Err(e) => Err(e)
    case Ok(t) => NewRelation(rel.index, t)
  }

  /** `cols.select[key]`: as `cols.select`, with a single name or `...` taken as a 1-tuple. */
  function SelectRelationItem(rel: Relation, key: SelectKey): (r: Result<Relation, Error>)
    requires rel.Valid()
    reads rel.index
    ensures SelectItem(rel.table, key).Err? ==> r == Err(SelectItem(rel.table, key).error)
    ensures SelectItem(rel.table, key).Ok? ==> r == NewRelation(rel.index, SelectItem(rel.table, key).value)
  {
    match SelectItem(rel.table, key)
    case Err(e) => Err(e)
    case Ok(t) => NewRelation(rel.index, t)
  }

  /**
   * A selection that succeeds on the table gives a relation exactly when it
   * keeps a column or the index has no rows; it keeps the index and shares
   * the selected columns.
   */
  lemma SelectKeepsIndex(rel: Relation, sel: Containers.Selector)
    requires rel.Valid() && SelectCols(rel.table, sel).Ok?
    ensures var names := Containers.SelectOrdered(rel.table.cols.names, sel).value;
      SelectRelation(rel, sel).Ok? <==> names != [] || rel.index.length == 0
    ensures SelectRelation(rel, sel).Ok? ==> var s := SelectRelation(rel, sel).value;
      && s.index == rel.index
      && forall n :: n in s.table.cols.m ==> s.table.cols.m[n] == rel.table.cols.m[n]
  {
    var names := Containers.SelectOrdered(rel.table.cols.names, sel).value;
    var t := SelectCols(rel.table, sel).value;
    assert Restrict(rel.table, names) == SelectCols(rel.table, sel);
    assert t.length == if names == [] then 0 else rel.table.length;
  }

  // ---- Indexing a table by its columns ---------------------------------------------------

  /** The dict `{n: table.cols[n] for n in names}` of arrays handed to `Index`; a repeated name is kept once. */
  function ByArgs(t: Table, names: seq<string>): (d: ODict<ColumnArg>)
    requires t.Valid()
    requires forall j :: 0 <= j < |names| ==> names[j] in t.cols.m
    ensures d.Valid()
    ensures forall n :: n in d.m <==> n in names
    ensures forall n :: n in d.m ==> d.m[n] == Arr(Vector(t.cols.m[n].arr))
    ensures PyLib.Distinct(names) ==> d.names == names
  {
    var pairs := seq(|names|, j requires 0 <= j < |names| => (names[j], Arr(Vector(t.cols.m[names[j]].arr))));
    var g := map n | n in t.cols.m :: Arr(Vector(t.cols.m[n].arr));
    UpdateFrom(Empty(), pairs, g);
    assert Names(pairs) == names;
    assert PyLib.Distinct(names) ==> FromPairs(pairs).names == names by {
      if PyLib.Distinct(names) {
        FromDistinctPairs(pairs);
      }
    }
    FromPairs(pairs)
  }

  /** The arguments are arrays of the table's columns, all of the table's length. */
  lemma ByArgsWrap(t: Table, names: seq<string>)
    requires t.Valid()
    requires forall j :: 0 <= j < |names| ==> names[j] in t.cols.m
    ensures AllWrap(ByArgs(t, names)) && Given(ByArgs(t, names)) == {}
    ensures Rectangular(ArgArrs(ByArgs(t, names)), t.length)
    ensures |ByArgs(t, names).names| == 0 <==> names == []
  {
    var d := ByArgs(t, names);
    assert Given(d) == {};
    if names != [] {
      assert names[0] in d.m;
      assert d.names != [];
    }
  }

  /**
   * `index(table, by)` (the argument `by` is `on` here): builds an `Index` of the named columns (a single
   * name counts as one) and the relation of that index over the whole table.
   * A missing name raises `KeyError`; the index's own checks follow.
   */
  method IndexBy(t: Table, on: PyLib.Arg<string>) returns (r: Result<Relation, Error>)
    requires t.Valid()
    ensures var names := PyLib.Tupleize(on);
      FirstAbsent(names, t.cols.m).Some? ==>
        r == Err(KeyError([Str(names[FirstAbsent(names, t.cols.m).value])]))
    ensures var names := PyLib.Tupleize(on);
      FirstAbsent(names, t.cols.m).None? && names == [] ==> r == Err(ValueError("no cols"))
    ensures var names := PyLib.Tupleize(on);
      FirstAbsent(names, t.cols.m).None? && names != [] ==>
        var d := ByArgs(t, names);
        var keys := Indexes.RowKeys(ArgArrs(d), t.length);
        && (!Unique(keys) ==> r.Err? && r.error.NotUnique? && SmallestRepeated(keys, r.error.key))
        && (Unique(keys) ==>
              && r.Ok? && fresh(r.value.index) && r.value.Valid() && r.value.table == t
              && r.value.index.names == d.names && r.value.index.Arrs() == ArgArrs(d))
  {
    var names := PyLib.Tupleize(on);
    var missing := FirstAbsent(names, t.cols.m);
    if missing.Some? {
      return Err(KeyError([Str(names[missing.value])]));
    }
    var d := ByArgs(t, names);
    ByArgsWrap(t, names);
    var made := NewIndex(d);
    if made.Err? {
      return Err(made.error);
    }
    var index := made.value;
    assert index.Arrs()[0] == ArgArrs(d)[0];
    r := NewRelation(index, t);
  }

  /** With distinct names, the index has exactly those columns, in that order, with the table's arrays. */
  lemma IndexByDistinct(t: Table, names: seq<string>)
    requires t.Valid() && PyLib.Distinct(names)
    requires forall j :: 0 <= j < |names| ==> names[j] in t.cols.m
    ensures ByArgs(t, names).names == names
    ensures |ArgArrs(ByArgs(t, names))| == |names|
    ensures forall j :: 0 <= j < |names| ==> ArgArrs(ByArgs(t, names))[j] == t.cols.m[names[j]].arr
  {
  }
}
