/**
 * The table of the `tabela` package: named columns of one length, with a
 * mapping view of the columns, a sequence view of the rows, row and column
 * selection. A table shares its `Column` objects with the tables selected
 * from it.
 */
module Tables {
  import opened Wrappers
  import opened Values
  import opened Errors
  import opened ODict
  import opened Columns
  import opened PyLib
  import opened Containers

  datatype Table = Table(cols: ODict<Column>, length: nat)
  {
    /** The names are those of an ordered dict, and every column has `length` elements. */
    ghost predicate Valid()
    {
      cols.Valid() && forall n :: n in cols.m ==> |cols.m[n].arr| == length
    }

    /** `_arrs`: each name with its column's array. */
    function Arrs(): (d: ODict<seq<Value>>)
      requires cols.Valid()
      ensures d.Valid() && d.names == cols.names
      ensures forall n :: n in d.m <==> n in cols.m
      ensures forall n :: n in d.m ==> d.m[n] == cols.m[n].arr
    {
      ODict(cols.names, map n | n in cols.m :: cols.m[n].arr)
    }
  }

  /** Every array of `arrs` has `n` elements. */
  ghost predicate AllOfLength(arrs: ODict<seq<Value>>, n: nat)
  {
    forall x :: x in arrs.m ==> |arrs.m[x]| == n
  }

  lemma ArrsOfLength(t: Table)
    requires t.Valid()
    ensures AllOfLength(t.Arrs(), t.length)
  {
  }

  // ---- Construction ---------------------------------------------------------------

  /** The table over the given columns, in name order. */
  function Assemble(names: seq<string>, cols: seq<Column>, length: nat): (t: Table)
    requires |names| == |cols| && Distinct(names)
    ensures t.cols.Valid() && t.cols.names == names && t.length == length
    ensures forall j :: 0 <= j < |names| ==> t.cols.m[names[j]] == cols[j]
    ensures (forall j :: 0 <= j < |cols| ==> |cols[j].arr| == length) ==> t.Valid()
  {
    var t := Table(ODict(names, map n | n in names :: cols[IndexOf(names, n)]), length);
    assert forall j :: 0 <= j < |names| ==> IndexOf(names, names[j]) == j;
    t
  }

  /**
   * `Table(cols)`: wraps every argument as a column and takes the common
   * length, 0 for no columns; unequal lengths raise `ValueError`.
   */
  method NewTable(d: ODict<ColumnArg>) returns (r: Result<Table, Error>)
    requires d.Valid()
    requires forall c :: c in Given(d) ==> c.Valid()
    ensures !AllWrap(d) ==> r == Err(ValueError("not one-dimensional"))
    ensures AllWrap(d) ==>
      var arrs := ArgArrs(d);
      && (r.Ok? <==> forall j :: 0 <= j < |arrs| ==> |arrs[j]| == |arrs[0]|)
      && (r.Err? ==> r.error == ValueError("not the same length"))
      && (r.Ok? ==>
            && r.value.Valid() && r.value.cols.names == d.names
            && r.value.length == (if arrs == [] then 0 else |arrs[0]|)
            && (forall j :: 0 <= j < |arrs| ==> r.value.cols.m[d.names[j]].arr == arrs[j]))
  {
    var wrapped := WrapAll(d);
    if wrapped.Err? {
      return Err(wrapped.error);
    }
    var cols := wrapped.value;
    var lengths := seq(|cols|, j requires 0 <= j < |cols| => |cols[j].arr|);
    var length := AllEqual(lengths, Some(0));
    CommonLength(cols, ArgArrs(d), lengths);
    if length.Err? {
      return Err(ValueError("not the same length"));
    }
    var t := Assemble(d.names, cols, length.value);
    r := Ok(t);
  }

  /** The arrays share a length exactly when the column lengths are all equal, and that is the common length. */
  lemma CommonLength(cols: seq<Column>, arrs: seq<seq<Value>>, lengths: seq<nat>)
    requires |arrs| == |cols| && forall j :: 0 <= j < |cols| ==> arrs[j] == cols[j].arr
    requires |lengths| == |cols| && forall j :: 0 <= j < |cols| ==> lengths[j] == |cols[j].arr|
    ensures AllEqual(lengths, Some(0)).Ok? <==> forall j :: 0 <= j < |arrs| ==> |arrs[j]| == |arrs[0]|
    ensures AllEqual(lengths, Some(0)).Err? ==> AllEqual(lengths, Some(0)).error == ValueError("not equal")
    ensures AllEqual(lengths, Some(0)).Ok? ==>
      && AllEqual(lengths, Some(0)).value == (if arrs == [] then 0 else |arrs[0]|)
      && forall j :: 0 <= j < |cols| ==> |cols[j].arr| == AllEqual(lengths, Some(0)).value
  {
  }

  /** A table without columns has no rows. */
  lemma NoColumnsNoRows(d: ODict<ColumnArg>)
    requires d.Valid() && d.names == []
    ensures AllWrap(d) && ArgArrs(d) == []
  {
  }

  // ---- The cols view ------------------------------------------------------------------

  /** A column key: a name, or an integer position in name order. */
  datatype ColKey = ByName(name: string) | ByPosition(pos: int)

  /**
   * `cols.get(key, default)`: the array of the named column, or of the column
   * at a position counted from the end when negative. A missing name or
   * position raises `KeyError`, or gives the default when there is one.
   */
  function GetCol(t: Table, key: ColKey, default: Option<seq<Value>>): (r: Result<seq<Value>, Error>)
    requires t.cols.Valid()
    ensures key.ByName? && key.name in t.cols.m ==> r == Ok(t.cols.m[key.name].arr)
    ensures key.ByPosition? && 0 <= key.pos < |t.cols.names| ==>
      r == Ok(t.cols.m[t.cols.names[key.pos]].arr)
    ensures key.ByPosition? && -|t.cols.names| <= key.pos < 0 ==>
      r == Ok(t.cols.m[t.cols.names[key.pos + |t.cols.names|]].arr)
    ensures r.Err? <==> default.None? && Missing(t, key)
    ensures r.Err? ==> r.error == KeyError([if key.ByName? then Str(key.name) else Int(key.pos)])
    ensures default.Some? && Missing(t, key) ==> r == Ok(default.value)
  {
    match key
    case ByName(n) =>
      if n in t.cols.m then Ok(t.cols.m[n].arr)
      else if default.Some? then Ok(default.value)
      else Err(KeyError([Str(n)]))
    case ByPosition(i) =>
      var j := NormalizeIndex(i, |t.cols.names|);
      if j.Ok? then Ok(t.cols.m[t.cols.names[j.value]].arr)
      else if default.Some? then Ok(default.value)
      else Err(KeyError([Int(i)]))
  }

  /** The key names no column. */
  predicate Missing(t: Table, key: ColKey)
  {
    match key
    case ByName(n) => n !in t.cols.m
    case ByPosition(i) => !(-|t.cols.names| <= i < |t.cols.names|)
  }

  /** Every column is found by its name and by its position, from the front and from the back. */
  lemma GetColFindsEach(t: Table, j: nat)
    requires t.cols.Valid() && j < |t.cols.names|
    ensures var n, k := t.cols.names[j], |t.cols.names|;
      && GetCol(t, ByName(n), None) == GetCol(t, ByPosition(j), None)
      && GetCol(t, ByPosition(j - k), None) == Ok(t.cols.m[n].arr)
  {
    assert t.cols.names[j] in t.cols.m;
  }

  // ---- Rows ------------------------------------------------------------------------

  /** A row of a table: a position and the name-to-array map it reads. */
  datatype Row = Row(idx: nat, arrs: ODict<seq<Value>>)
  {
    ghost predicate Valid()
    {
      arrs.Valid() && forall n :: n in arrs.m ==> idx < |arrs.m[n]|
    }

    /** `values()`: the row's value in each column, in column order. */
    function Values(): (vs: seq<Value>)
      requires Valid()
      ensures |vs| == |arrs.names|
      ensures forall j :: 0 <= j < |vs| ==> vs[j] == arrs.m[arrs.names[j]][idx]
    {
      seq(|arrs.names|, j requires 0 <= j < |arrs.names| => arrs.m[arrs.names[j]][idx])
    }

    /** `items()`: each column name with the row's value there. */
    function Items(): (its: seq<(string, Value)>)
      requires Valid()
      ensures |its| == |arrs.names|
      ensures forall j :: 0 <= j < |its| ==> its[j].0 == arrs.names[j] && its[j].1 == Values()[j]
    {
      seq(|arrs.names|, j requires 0 <= j < |arrs.names| => (arrs.names[j], Values()[j]))
    }

    /** `row[name]`: the value in the named column; a missing name raises `KeyError`. */
    function Get(name: string): (r: Result<Value, Error>)
      requires Valid()
      ensures r.Ok? <==> name in arrs.names
      ensures r.Ok? ==> r.value == arrs.m[name][idx]
      ensures r.Err? ==> r.error == KeyError([Str(name)])
    {
      if name in arrs.m then Ok(arrs.m[name][idx]) else Err(KeyError([Str(name)]))
    }
  }

  /** The row's mapping views agree: every item is found again by its name. */
  lemma RowItemsAgree(row: Row)
    requires row.Valid()
    ensures forall j :: 0 <= j < |row.Items()| ==> row.Get(row.Items()[j].0) == Ok(row.Items()[j].1)
  {
    forall j | 0 <= j < |row.Items()| ensures row.Get(row.Items()[j].0) == Ok(row.Items()[j].1) {
      assert row.arrs.names[j] in row.arrs.m;
    }
  }

  /** `rows[i]` for an integer `i`: the row at `i`, counted from the end when negative. */
  function RowAt(t: Table, i: int): (r: Result<Row, Error>)
    requires t.Valid()
    ensures r.Ok? <==> -(t.length as int) <= i < t.length
    ensures r.Ok? ==> r.value.Valid() && r.value.arrs == t.Arrs()
    ensures r.Ok? ==> r.value.idx < t.length && (i >= 0 ==> r.value.idx == i) && (i < 0 ==> r.value.idx == i + t.length)
    ensures r.Err? ==> r.error == IndexError(i)
  {
    match NormalizeIndex(i, t.length)
    case Ok(idx) => Ok(Row(idx, t.Arrs()))
    case Err(e) => Err(e)
  }

  /** Iterating `rows`: the rows at `0, 1, ...` in order. */
  function RowsOf(t: Table): (rows: seq<Row>)
    requires t.Valid()
    ensures |rows| == t.length
    ensures forall i :: 0 <= i < t.length ==> rows[i].Valid() && rows[i] == Row(i, t.Arrs())
  {
    assert forall i :: 0 <= i < t.length ==> Row(i, t.Arrs()).Valid() by {
      forall i | 0 <= i < t.length ensures Row(i, t.Arrs()).Valid() {
        var row := Row(i, t.Arrs());
        assert forall n :: n in row.arrs.m ==> |row.arrs.m[n]| == t.length;
      }
    }
    seq(t.length, i requires 0 <= i < t.length => Row(i, t.Arrs()))
  }

  /** Iteration and indexing agree: the `i`-th row iterated is `rows[i]`, and `rows[i - n]` too. */
  lemma RowsOfAgree(t: Table, i: nat)
    requires t.Valid() && i < t.length
    ensures RowAt(t, i) == Ok(RowsOf(t)[i])
    ensures RowAt(t, i - t.length) == Ok(RowsOf(t)[i])
  {
  }

  // ---- Row selections ------------------------------------------------------------------

  /** A selection of rows other than one position: a boolean mask, positions, or a slice. */
  datatype RowSel = Mask(mask: seq<bool>) | Positions(positions: seq<int>) | SliceOf(slice: Slice)

  /** The positions where the mask is true, ascending. */
  function MaskPositions(m: seq<bool>): (r: seq<nat>)
    ensures forall p :: 0 <= p < |r| ==> r[p] < |m| && m[r[p]]
    ensures forall i :: 0 <= i < |m| && m[i] ==> i in r
    ensures forall p, q :: 0 <= p < q < |r| ==> r[p] < r[q]
    decreases |m|
  {
    if m == [] then []
    else
      var rest := MaskPositions(m[..|m| - 1]);
      if m[|m| - 1] then rest + [|m| - 1] else rest
  }

  /** Each position counted from the end when negative; the first out of range raises `IndexError`. */
  function TakePositions(ps: seq<int>, n: nat): (r: Result<seq<nat>, Error>)
    ensures r.Ok? <==> forall k :: 0 <= k < |ps| ==> -(n as int) <= ps[k] < n
    ensures r.Ok? ==> |r.value| == |ps|
    ensures r.Ok? ==> forall k :: 0 <= k < |ps| ==> NormalizeIndex(ps[k], n) == Ok(r.value[k])
    ensures r.Err? ==> exists k :: (0 <= k < |ps| && r.error == IndexError(ps[k])
      && !(-(n as int) <= ps[k] < n) && forall k' :: 0 <= k' < k ==> -(n as int) <= ps[k'] < n)
    decreases |ps|
  {
    if ps == [] then Ok([])
    else match NormalizeIndex(ps[0], n)
      case Err(e) => Err(e)
      case Ok(p) =>
        var rest := TakePositions(ps[1..], n);
        TakePositionsCons(ps, n, p, rest);
        if rest.Err? then Err(rest.error) else Ok([p] + rest.value)
  }

  /** The positions after the first, shifted by one: the first out of range stays the first. */
  lemma TakePositionsCons(ps: seq<int>, n: nat, p: nat, rest: Result<seq<nat>, Error>)
    requires ps != [] && NormalizeIndex(ps[0], n) == Ok(p)
    requires rest.Ok? <==> forall k :: 0 <= k < |ps| - 1 ==> -(n as int) <= ps[1..][k] < n
    requires rest.Ok? ==> |rest.value| == |ps| - 1
    requires rest.Ok? ==> forall k :: 0 <= k < |ps| - 1 ==> NormalizeIndex(ps[1..][k], n) == Ok(rest.value[k])
    requires rest.Err? ==> exists k :: (0 <= k < |ps| - 1 && rest.error == IndexError(ps[1..][k])
      && !(-(n as int) <= ps[1..][k] < n) && forall k' :: 0 <= k' < k ==> -(n as int) <= ps[1..][k'] < n)
    ensures rest.Ok? <==> forall k :: 0 <= k < |ps| ==> -(n as int) <= ps[k] < n
    ensures rest.Ok? ==> forall k :: 0 <= k < |ps| ==> NormalizeIndex(ps[k], n) == Ok(([p] + rest.value)[k])
    ensures rest.Err? ==> exists k :: (0 <= k < |ps| && rest.error == IndexError(ps[k])
      && !(-(n as int) <= ps[k] < n) && forall k' :: 0 <= k' < k ==> -(n as int) <= ps[k'] < n)
  {
    assert forall k :: 1 <= k < |ps| ==> ps[1..][k - 1] == ps[k];
    if rest.Err? {
      var k :| 0 <= k < |ps| - 1 && rest.error == IndexError(ps[1..][k])
        && !(-(n as int) <= ps[1..][k] < n) && forall k' :: 0 <= k' < k ==> -(n as int) <= ps[1..][k'] < n;
      assert ps[k + 1] == ps[1..][k];
    }
  }

  /** The row positions `arr[sel]` reads from an array of `n` elements. */
  function Selected(sel: RowSel, n: nat): (r: Result<seq<nat>, Error>)
    ensures r.Ok? ==> forall p :: 0 <= p < |r.value| ==> r.value[p] < n
    ensures sel.Mask? ==> (r.Ok? <==> |sel.mask| == n)
    ensures sel.Mask? && r.Ok? ==> forall i :: 0 <= i < n ==> (i in r.value <==> sel.mask[i])
    ensures sel.Positions? ==> r == TakePositions(sel.positions, n)
    ensures sel.SliceOf? ==> r == SliceIndices(sel.slice, n)
  {
    match sel
    case Mask(m) => if |m| != n then Err(IndexError(|m|)) else Ok(MaskPositions(m))
    case Positions(ps) =>
      var r := TakePositions(ps, n);
      if r.Ok? then
        assert forall k :: 0 <= k < |ps| ==> r.value[k] < n by {
          forall k | 0 <= k < |ps| ensures r.value[k] < n {
            assert NormalizeIndex(ps[k], n) == Ok(r.value[k]);
          }
        }
        r
      else r
    case SliceOf(sl) => SliceIndices(sl, n)
  }

  /**
   * `rows[sel]` for a non-scalar `sel`: a new table with the same names in the
   * same order, each column read at the selected positions. A table without
   * columns gives an empty table whatever `sel` is.
   */
  method Subtable(t: Table, sel: RowSel) returns (r: Result<Table, Error>)
    requires t.Valid()
    ensures t.cols.names == [] ==> r == Ok(Table(ODict([], map[]), 0))
    ensures t.cols.names != [] ==> (r.Ok? <==> Selected(sel, t.length).Ok?)
    ensures t.cols.names != [] && r.Err? ==> r.error == Selected(sel, t.length).error
    ensures r.Ok? ==> r.value.Valid() && r.value.cols.names == t.cols.names
    ensures r.Ok? && t.cols.names != [] ==>
      var ps := Selected(sel, t.length).value;
      && r.value.length == |ps|
      && forall n :: n in t.cols.m ==> r.value.cols.m[n].arr == Take(t.cols.m[n].arr, ps)
  {
    var names := t.cols.names;
    if names == [] {
      return Ok(Table(ODict([], map[]), 0));
    }
    var ps := Selected(sel, t.length);
    if ps.Err? {
      return Err(ps.error);
    }
    var cols: seq<Column> := [];
    for j := 0 to |names|
      invariant |cols| == j
      invariant forall k :: 0 <= k < j ==> cols[k].arr == Take(t.cols.m[names[k]].arr, ps.value)
    {
      var c := new Column(Take(t.cols.m[names[j]].arr, ps.value));
      cols := cols + [c];
    }
    var s := Assemble(names, cols, |ps.value|);
    forall n | n in t.cols.m ensures s.cols.m[n].arr == Take(t.cols.m[n].arr, ps.value) {
      var j := IndexOf(names, n);
      assert s.cols.m[names[j]] == cols[j];
    }
    r := Ok(s);
  }

  // ---- Column selections -----------------------------------------------------------------

  /** The position of the first name that is not a key of `m`, if any. */
  function FirstAbsent<V>(names: seq<string>, m: map<string, V>): (r: Option<nat>)
    ensures r.None? <==> forall j :: 0 <= j < |names| ==> names[j] in m
    ensures r.Some? ==> r.value < |names| && names[r.value] !in m
    ensures r.Some? ==> forall j :: 0 <= j < r.value ==> names[j] in m
  {
    if names == [] then None
    else if names[0] !in m then Some(0)
    else match FirstAbsent(names[1..], m)
      case None => None
      case Some(j) => Some(j + 1)
  }

  /** `{n: cols[n] for n in names}` as a table: a missing name raises `KeyError`; a repeated one is kept once. */
  function Restrict(t: Table, names: seq<string>): (r: Result<Table, Error>)
    requires t.Valid()
    ensures r.Ok? <==> forall j :: 0 <= j < |names| ==> names[j] in t.cols.m
    ensures r.Err? ==> var j := FirstAbsent(names, t.cols.m).value; r.error == KeyError([Str(names[j])])
    ensures r.Ok? ==> r.value.Valid() && (forall n :: n in r.value.cols.m <==> n in names)
    ensures r.Ok? ==> forall n :: n in r.value.cols.m ==> r.value.cols.m[n] == t.cols.m[n]
    ensures r.Ok? ==> r.value.length == if names == [] then 0 else t.length
    ensures r.Ok? && Distinct(names) ==> r.value.cols.names == names
  {
    match FirstAbsent(names, t.cols.m)
    case Some(j) => Err(KeyError([Str(names[j])]))
    case None =>
      var pairs := seq(|names|, j requires 0 <= j < |names| => (names[j], t.cols.m[names[j]]));
      var g := map n | n in t.cols.m :: t.cols.m[n];
      UpdateFrom(Empty(), pairs, g);
      assert Names(pairs) == names;
      assert Distinct(names) ==> FromPairs(pairs).names == names by {
        if Distinct(names) {
          FromDistinctPairs(pairs);
        }
      }
      Ok(Table(FromPairs(pairs), if names == [] then 0 else t.length))
  }

  /** `cols.select(sel)`: the table of the columns `select_ordered` picks from the names, sharing their `Column` objects. */
  function SelectCols(t: Table, sel: Selector): (r: Result<Table, Error>)
    requires t.Valid()
    ensures r.Ok? <==> SelectOrdered(t.cols.names, sel).Ok?
    ensures r.Err? ==> r.error == SelectOrdered(t.cols.names, sel).error
    ensures r.Ok? ==> var names := SelectOrdered(t.cols.names, sel).value;
      && r.value.Valid()
      && (forall n :: n in r.value.cols.m <==> n in names)
      && (forall n :: n in r.value.cols.m ==> r.value.cols.m[n] == t.cols.m[n])
      && (Distinct(names) ==> r.value.cols.names == names)
  {
    match SelectOrdered(t.cols.names, sel)
    case Err(e) => Err(e)
    case Ok(names) => Restrict(t, names)
  }

  /** A key of `cols.select[key]`: one name or `...`, taken as a 1-tuple, or a selector. */
  datatype SelectKey = Single(entry: Entry) | Several(sel: Selector)

  /** `cols.select[key]`. */
  function SelectItem(t: Table, key: SelectKey): (r: Result<Table, Error>)
    requires t.Valid()
    ensures key.Single? ==> r == SelectCols(t, Entries([key.entry]))
    ensures key.Several? ==> r == SelectCols(t, key.sel)
  {
    match key
    case Single(e) => SelectCols(t, Entries([e]))
    case Several(sel) => SelectCols(t, sel)
  }

  /** `select_ordered(names, (...,))` picks every name, in order. */
  lemma SelectOrderedAll(names: seq<string>)
    ensures SelectOrdered(names, Entries([Ellipsis])) == Ok(names)
  {
    SelectOrderedLone(names);
    MissingNothing(names);
  }

  /** `cols.select[...]` keeps every column, in order. */
  lemma SelectEverything(t: Table)
    requires t.Valid()
    ensures SelectItem(t, Single(Ellipsis)) == Restrict(t, t.cols.names)
    ensures SelectItem(t, Single(Ellipsis)).Ok? && SelectItem(t, Single(Ellipsis)).value.cols.names == t.cols.names
  {
    SelectOrderedAll(t.cols.names);
    assert Distinct(t.cols.names);
  }

  /** `cols.select[name]` for a present name is the one-column table of that column. */
  lemma SelectOne(t: Table, n: string)
    requires t.Valid() && n in t.cols.m
    ensures SelectItem(t, Single(Name(n))).Ok?
    ensures var s := SelectItem(t, Single(Name(n))).value;
      s.cols.names == [n] && s.cols.m[n] == t.cols.m[n] && s.length == t.length
  {
    SelectOrderedNoEllipsis(t.cols.names, [Name(n)]);
    assert Name(n) != Ellipsis;
    var names := SelectOrdered(t.cols.names, Entries([Name(n)])).value;
    assert names == [n];
  }
}
