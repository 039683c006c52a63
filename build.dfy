/**
 * Building a table from rows: records (one dict per row) or plain row
 * sequences are transposed into columns by appending each value to its
 * column's list, row after row.
 */
module Build {
  import opened Wrappers
  import opened Values
  import opened Errors
  import opened ODict
  import opened Columns
  import opened Tables
  import PyLib

  // ---- Records --------------------------------------------------------------------

  /** The values of `n`, in record order, from the records that have it. */
  function Collected(recs: seq<ODict<Value>>, n: string): (vs: seq<Value>)
    ensures |vs| <= |recs|
    decreases |recs|
  {
    if recs == [] then []
    else
      var last := recs[|recs| - 1];
      Collected(recs[..|recs| - 1], n) + if n in last.m then [last.m[n]] else []
  }

  /** The first name, over the records in order and each record's names in order, that `known` lacks. */
  function Stranger(known: map<string, seq<Value>>, recs: seq<ODict<Value>>): (r: Option<string>)
    ensures r.None? <==> forall i, n :: 0 <= i < |recs| && n in recs[i].names ==> n in known
    ensures r.Some? ==> r.value !in known
    decreases |recs|
  {
    if recs == [] then None
    else match FirstAbsent(recs[0].names, known)
      case Some(j) => Some(recs[0].names[j])
      case None =>
        var rest := Stranger(known, recs[1..]);
        assert forall i :: 1 <= i < |recs| ==> recs[i] == recs[1..][i - 1];
        rest
  }

  /** The column lists as `from_recs` starts them: each name of the first record with its one value. */
  function Started(first: ODict<Value>): map<string, seq<Value>>
  {
    map n | n in first.m :: [first.m[n]]
  }

  /** The first name of a later record that the first record lacks, if any. */
  function FirstStranger(recs: seq<ODict<Value>>): Option<string>
  {
    if recs == [] then None else Stranger(Started(recs[0]), recs[1..])
  }

  lemma SplitSlices<T>(s: seq<T>, a: nat, b: nat)
    requires a <= b <= |s|
    ensures s[a..] == s[a..b] + s[b..]
  {
  }

  /** `Stranger` over two runs of records: the first run's stranger, or else the second's. */
  lemma {:induction false} StrangerConcat(known: map<string, seq<Value>>, p: seq<ODict<Value>>, q: seq<ODict<Value>>)
    ensures Stranger(known, p + q) == if Stranger(known, p).Some? then Stranger(known, p) else Stranger(known, q)
    decreases |p|
  {
    if p != [] {
      assert (p + q)[0] == p[0];
      assert (p + q)[1..] == p[1..] + q;
      StrangerConcat(known, p[1..], q);
      assert Stranger(known, p + q) ==
        match FirstAbsent(p[0].names, known)
        case Some(j) => Some(p[0].names[j])
        case None => Stranger(known, p[1..] + q);
    } else {
      assert p + q == q;
    }
  }

  /** The stranger of one record is its first name `known` lacks. */
  lemma StrangerOne(known: map<string, seq<Value>>, rec: ODict<Value>)
    ensures Stranger(known, [rec]) ==
      match FirstAbsent(rec.names, known)
      case Some(j) => Some(rec.names[j])
      case None => None
  {
    assert [rec][1..] == [];
  }

  /** `FirstAbsent` looks only at the keys. */
  lemma {:induction false} FirstAbsentKeys<V, W>(names: seq<string>, m1: map<string, V>, m2: map<string, W>)
    requires forall n :: n in m1 <==> n in m2
    ensures FirstAbsent(names, m1) == FirstAbsent(names, m2)
    decreases |names|
  {
    if names != [] {
      FirstAbsentKeys(names[1..], m1, m2);
    }
  }

  /** Appending the record's `k`-th value extends its own list and no other. */
  lemma AppendStep(cols: map<string, seq<Value>>, acc: map<string, seq<Value>>, rec: ODict<Value>, k: nat)
    requires rec.Valid() && k < |rec.names| && rec.names[k] in acc
    requires forall n :: n in acc <==> n in cols
    requires forall n :: n in cols ==> acc[n] == cols[n] + if n in rec.names[..k] then [rec.m[n]] else []
    ensures var n := rec.names[k]; var next := acc[n := acc[n] + [rec.m[n]]];
      forall x :: x in cols ==> next[x] == cols[x] + if x in rec.names[..k + 1] then [rec.m[x]] else []
  {
    var n := rec.names[k];
    assert n !in rec.names[..k] by {
      forall p | 0 <= p < k ensures rec.names[p] != n {}
    }
    assert rec.names[..k + 1] == rec.names[..k] + [n];
  }

  /**
   * The inner loop of `from_recs`: each of the record's values appended to
   * its name's list, in the record's order; a name without a list raises `KeyError`.
   */
  method AppendRecord(cols: map<string, seq<Value>>, rec: ODict<Value>) returns (r: Result<map<string, seq<Value>>, Error>)
    requires rec.Valid()
    ensures FirstAbsent(rec.names, cols).Some? ==>
      r == Err(KeyError([Str(rec.names[FirstAbsent(rec.names, cols).value])]))
    ensures FirstAbsent(rec.names, cols).None? ==>
      && r.Ok? && (forall n :: n in r.value <==> n in cols)
      && forall n :: n in cols ==> r.value[n] == cols[n] + if n in rec.m then [rec.m[n]] else []
  {
    var acc := cols;
    for k := 0 to |rec.names|
      invariant forall n :: n in acc <==> n in cols
      invariant forall n :: n in cols ==> acc[n] == cols[n] + if n in rec.names[..k] then [rec.m[n]] else []
      invariant forall p :: 0 <= p < k ==> rec.names[p] in cols
    {
      var n := rec.names[k];
      if n !in acc {
        assert FirstAbsent(rec.names, cols) == Some(k) by {
          FirstAbsentAt(rec.names, cols, k);
        }
        return Err(KeyError([Str(n)]));
      }
      AppendStep(cols, acc, rec, k);
      acc := acc[n := acc[n] + [rec.m[n]]];
    }
    assert rec.names[..|rec.names|] == rec.names;
    r := Ok(acc);
  }

  /** A name that is absent after present ones is the first absent. */
  lemma {:induction false} FirstAbsentAt<V>(names: seq<string>, m: map<string, V>, k: nat)
    requires k < |names| && names[k] !in m
    requires forall p :: 0 <= p < k ==> names[p] in m
    ensures FirstAbsent(names, m) == Some(k)
    decreases k
  {
    if k > 0 {
      FirstAbsentAt(names[1..], m, k - 1);
    }
  }

  /** One more record: either its first unknown name is the stranger of all later records, or none appears yet. */
  lemma StrangerStep(known: map<string, seq<Value>>, recs: seq<ODict<Value>>, i: nat)
    requires 1 <= i < |recs| && Stranger(known, recs[1..i]) == None
    ensures FirstAbsent(recs[i].names, known).Some? ==>
      Stranger(known, recs[1..]) == Some(recs[i].names[FirstAbsent(recs[i].names, known).value])
    ensures FirstAbsent(recs[i].names, known).None? ==> Stranger(known, recs[1..i + 1]) == None
  {
    var done, next := recs[1..i], [recs[i]];
    assert recs[1..i + 1] == done + next;
    StrangerOne(known, recs[i]);
    StrangerConcat(known, done, next);
    if FirstAbsent(recs[i].names, known).Some? {
      SplitSlices(recs, 1, i + 1);
      StrangerConcat(known, recs[1..i + 1], recs[i + 1..]);
    }
  }

  /** One more record appends its value of each of its names. */
  lemma CollectedStep(recs: seq<ODict<Value>>, i: nat)
    requires i < |recs|
    ensures forall n :: Collected(recs[..i + 1], n) == Collected(recs[..i], n) + if n in recs[i].m then [recs[i].m[n]] else []
  {
    assert recs[..i + 1][..i] == recs[..i];
  }

  /**
   * The columns of `from_recs` before they become arrays: one list per name
   * of the first record, each later record's values appended in turn. No
   * records raise `StopIteration`; a later record's name the first lacks
   * raises `KeyError`.
   */
  method RecordColumns(recs: seq<ODict<Value>>) returns (r: Result<ODict<seq<Value>>, Error>)
    requires forall i :: 0 <= i < |recs| ==> recs[i].Valid()
    ensures recs == [] ==> r == Err(StopIteration)
    ensures FirstStranger(recs).Some? ==> r == Err(KeyError([Str(FirstStranger(recs).value)]))
    ensures recs != [] && FirstStranger(recs).None? ==>
      && r.Ok? && r.value.Valid() && r.value.names == recs[0].names
      && forall n :: n in r.value.m ==> r.value.m[n] == Collected(recs, n)
  {
    if recs == [] {
      return Err(StopIteration);
    }
    var first := recs[0];
    var cols: map<string, seq<Value>> := map n | n in first.m :: [first.m[n]];
    assert cols == Started(first);
    ghost var known := cols;
    assert forall n :: n in first.m ==> Collected(recs[..1], n) == [first.m[n]] by {
      assert recs[..1][..0] == [];
    }
    for i := 1 to |recs|
      invariant forall n :: n in cols <==> n in first.m
      invariant forall n :: n in cols ==> cols[n] == Collected(recs[..i], n)
      invariant Stranger(known, recs[1..i]) == None
    {
      var appended := AppendRecord(cols, recs[i]);
      RecordStep(recs, known, cols, i, appended);
      if appended.Err? {
        return Err(appended.error);
      }
      cols := appended.value;
    }
    assert recs[..|recs|] == recs;
    assert recs[1..|recs|] == recs[1..];
    r := Ok(ODict(first.names, cols));
  }

  /** One turn of `from_recs`'s outer loop: the record either has a name the first lacks, or extends every column. */
  lemma RecordStep(recs: seq<ODict<Value>>, known: map<string, seq<Value>>, cols: map<string, seq<Value>>, i: nat,
                   appended: Result<map<string, seq<Value>>, Error>)
    requires 1 <= i < |recs| && recs[i].Valid()
    requires forall n :: n in known <==> n in cols
    requires forall n :: n in cols ==> cols[n] == Collected(recs[..i], n)
    requires Stranger(known, recs[1..i]) == None
    requires FirstAbsent(recs[i].names, cols).Some? ==>
      appended == Err(KeyError([Str(recs[i].names[FirstAbsent(recs[i].names, cols).value])]))
    requires FirstAbsent(recs[i].names, cols).None? ==>
      && appended.Ok? && (forall n :: n in appended.value <==> n in cols)
      && forall n :: n in cols ==> appended.value[n] == cols[n] + if n in recs[i].m then [recs[i].m[n]] else []
    ensures appended.Err? ==> Stranger(known, recs[1..]).Some? && appended.error == KeyError([Str(Stranger(known, recs[1..]).value)])
    ensures appended.Ok? ==>
      && Stranger(known, recs[1..i + 1]) == None
      && (forall n :: n in appended.value <==> n in cols)
      && forall n :: n in appended.value ==> appended.value[n] == Collected(recs[..i + 1], n)
  {
    FirstAbsentKeys(recs[i].names, cols, known);
    StrangerStep(known, recs, i);
    CollectedStep(recs, i);
  }

  /**
   * When every record has the names of the first, the columns transpose the
   * records: column `n` holds each record's value of `n`, in record order.
   */
  lemma {:induction false} CollectedTransposes(recs: seq<ODict<Value>>, n: string)
    requires forall i :: 0 <= i < |recs| ==> n in recs[i].m
    ensures |Collected(recs, n)| == |recs|
    ensures forall i :: 0 <= i < |recs| ==> Collected(recs, n)[i] == recs[i].m[n]
    decreases |recs|
  {
    if recs != [] {
      var init := recs[..|recs| - 1];
      CollectedTransposes(init, n);
    }
  }

  /** The dict of arrays a table is made from: each column's list as a one-dimensional array. */
  function AsArrays(cols: ODict<seq<Value>>): (d: ODict<ColumnArg>)
    ensures d.names == cols.names
    ensures cols.Valid() ==> d.Valid() && AllWrap(d)
    ensures forall n :: n in d.m <==> n in cols.m
    ensures forall n :: n in d.m ==> d.m[n] == Arr(Vector(cols.m[n]))
  {
    ODict(cols.names, map n | n in cols.m :: Arr(Vector(cols.m[n])))
  }

  /** Every record has the first record's keys, in any order: "all mappings must have the same keys". */
  predicate SameKeys(recs: seq<ODict<Value>>)
  {
    recs != [] && forall i :: 0 <= i < |recs| ==> recs[i].m.Keys == recs[0].m.Keys
  }

  /** A name of the first record is a key of every record with the same keys. */
  lemma SameKeysHas(recs: seq<ODict<Value>>, n: string, i: nat)
    requires SameKeys(recs) && i < |recs| && n in recs[0].m
    ensures n in recs[i].m
  {
    assert n in recs[0].m.Keys;
  }

  /** Records that share the first's keys have no stranger. */
  lemma SameKeysNoStranger(recs: seq<ODict<Value>>)
    requires SameKeys(recs) && forall i :: 0 <= i < |recs| ==> recs[i].Valid()
    ensures FirstStranger(recs) == None
  {
    var known := Started(recs[0]);
    forall i, n | 0 <= i < |recs[1..]| && n in recs[1..][i].names ensures n in known {
      assert recs[1..][i] == recs[i + 1];
      assert n in recs[i + 1].m.Keys;
    }
  }

  /** Records that share the first's keys: the arrays are the transposed records. */
  lemma SameKeysTranspose(recs: seq<ODict<Value>>, cols: ODict<seq<Value>>)
    requires SameKeys(recs) && forall i :: 0 <= i < |recs| ==> recs[i].Valid()
    requires cols.Valid() && cols.names == recs[0].names
    requires forall n :: n in cols.m ==> cols.m[n] == Collected(recs, n)
    ensures forall j :: 0 <= j < |cols.names| ==>
      && |ArgArrs(AsArrays(cols))[j]| == |recs|
      && forall i :: 0 <= i < |recs| ==>
           cols.names[j] in recs[i].m && ArgArrs(AsArrays(cols))[j][i] == recs[i].m[cols.names[j]]
  {
    forall j | 0 <= j < |cols.names|
      ensures |ArgArrs(AsArrays(cols))[j]| == |recs|
      ensures forall i :: 0 <= i < |recs| ==>
        cols.names[j] in recs[i].m && ArgArrs(AsArrays(cols))[j][i] == recs[i].m[cols.names[j]]
    {
      SameKeysColumn(recs, cols, j);
    }
  }

  /** Column `j` of the record columns holds each record's value of the `j`-th name. */
  lemma SameKeysColumn(recs: seq<ODict<Value>>, cols: ODict<seq<Value>>, j: nat)
    requires SameKeys(recs) && forall i :: 0 <= i < |recs| ==> recs[i].Valid()
    requires cols.Valid() && cols.names == recs[0].names
    requires forall n :: n in cols.m ==> cols.m[n] == Collected(recs, n)
    requires j < |cols.names|
    ensures var a := ArgArrs(AsArrays(cols))[j];
      && |a| == |recs|
      && forall i :: 0 <= i < |recs| ==> cols.names[j] in recs[i].m && a[i] == recs[i].m[cols.names[j]]
  {
    var n := cols.names[j];
    assert n in cols.m;
    assert ArgArrs(AsArrays(cols))[j] == Collected(recs, n);
    forall i | 0 <= i < |recs| ensures n in recs[i].m {
      SameKeysHas(recs, n, i);
    }
    CollectedTransposes(recs, n);
  }

  /**
   * `from_recs(recs)`: the table of the record columns. Records that share
   * the first's keys give a table of one row per record, its columns in the
   * first record's order; a later record's key the first lacks raises
   * `KeyError`; a record missing a key leaves its column short, which the
   * table rejects.
   */
  method FromRecs(recs: seq<ODict<Value>>) returns (r: Result<Table, Error>)
    requires forall i :: 0 <= i < |recs| ==> recs[i].Valid()
    ensures recs == [] ==> r == Err(StopIteration)
    ensures FirstStranger(recs).Some? ==> r == Err(KeyError([Str(FirstStranger(recs).value)]))
    ensures SameKeys(recs) ==>
      var names := recs[0].names;
      && r.Ok? && r.value.Valid() && r.value.cols.names == names
      && r.value.length == (if names == [] then 0 else |recs|)
      && forall j, i :: 0 <= j < |names| && 0 <= i < |recs| ==>
           names[j] in recs[i].m && r.value.cols.m[names[j]].arr[i] == recs[i].m[names[j]]
  {
    var same := SameKeys(recs);
    if same {
      SameKeysNoStranger(recs);
    }
    var cols := RecordColumns(recs);
    if cols.Err? {
      return Err(cols.error);
    }
    var d := AsArrays(cols.value);
    if same {
      SameKeysTranspose(recs, cols.value);
    }
    r := NewTable(d);
    if same {
      assert r.Ok?;
      RecsTable(recs, cols.value, r.value);
    }
  }

  /** The table made from the transposed columns of records sharing their keys holds each record as a row. */
  lemma RecsTable(recs: seq<ODict<Value>>, cols: ODict<seq<Value>>, t: Table)
    requires SameKeys(recs) && forall i :: 0 <= i < |recs| ==> recs[i].Valid()
    requires cols.Valid() && cols.names == recs[0].names
    requires forall j :: 0 <= j < |cols.names| ==>
      && |ArgArrs(AsArrays(cols))[j]| == |recs|
      && forall i :: 0 <= i < |recs| ==>
           cols.names[j] in recs[i].m && ArgArrs(AsArrays(cols))[j][i] == recs[i].m[cols.names[j]]
    requires var arrs := ArgArrs(AsArrays(cols));
      && t.Valid() && t.cols.names == cols.names
      && t.length == (if arrs == [] then 0 else |arrs[0]|)
      && (forall j :: 0 <= j < |arrs| ==> t.cols.m[cols.names[j]].arr == arrs[j])
    ensures var names := recs[0].names;
      && t.length == (if names == [] then 0 else |recs|)
      && forall j, i :: 0 <= j < |names| && 0 <= i < |recs| ==>
           names[j] in recs[i].m && t.cols.m[names[j]].arr[i] == recs[i].m[names[j]]
  {
    var names, arrs := recs[0].names, ArgArrs(AsArrays(cols));
    forall j, i | 0 <= j < |names| && 0 <= i < |recs|
      ensures names[j] in recs[i].m && t.cols.m[names[j]].arr[i] == recs[i].m[names[j]]
    {
      assert t.cols.m[cols.names[j]].arr == arrs[j];
    }
  }

  // ---- Row sequences --------------------------------------------------------------

  /** Column `j` of `from_row_seqs`: the `j`-th value of each row that has one (`zip` stops at the shorter). */
  function ColumnOf(rows: seq<seq<Value>>, j: nat): (c: seq<Value>)
    ensures |c| <= |rows|
    decreases |rows|
  {
    if rows == [] then []
    else
      var last := rows[|rows| - 1];
      ColumnOf(rows[..|rows| - 1], j) + if j < |last| then [last[j]] else []
  }

  /** The column lists of `from_row_seqs`: one per name, each row's values appended in step with the names. */
  method RowColumns(width: nat, rows: seq<seq<Value>>) returns (cols: seq<seq<Value>>)
    ensures |cols| == width
    ensures forall j :: 0 <= j < width ==> cols[j] == ColumnOf(rows, j)
  {
    cols := seq(width, j => []);
    for i := 0 to |rows|
      invariant |cols| == width
      invariant forall j :: 0 <= j < width ==> cols[j] == ColumnOf(rows[..i], j)
    {
      var row := rows[i];
      assert rows[..i + 1][..i] == rows[..i];
      var m := if width < |row| then width else |row|;
      for k := 0 to m
        invariant |cols| == width
        invariant forall j :: 0 <= j < width ==>
          cols[j] == ColumnOf(rows[..i], j) + if j < k then [row[j]] else []
      {
        cols := cols[k := cols[k] + [row[k]]];
      }
    }
    assert rows[..|rows|] == rows;
  }

  /** With rows reaching position `j`, column `j` holds that position of every row. */
  lemma {:induction false} ColumnOfTransposes(rows: seq<seq<Value>>, j: nat)
    requires forall i :: 0 <= i < |rows| ==> j < |rows[i]|
    ensures |ColumnOf(rows, j)| == |rows|
    ensures forall i :: 0 <= i < |rows| ==> ColumnOf(rows, j)[i] == rows[i][j]
    decreases |rows|
  {
    if rows != [] {
      ColumnOfTransposes(rows[..|rows| - 1], j);
    }
  }

  /** In rows at least `width` wide, a column before `width` holds that position of every row. */
  lemma WideColumn(rows: seq<seq<Value>>, width: nat, j: nat, col: seq<Value>)
    requires j < width && col == ColumnOf(rows, j)
    requires forall i :: 0 <= i < |rows| ==> |rows[i]| >= width
    ensures |col| == |rows| && forall i :: 0 <= i < |rows| ==> col[i] == rows[i][j]
  {
    ColumnOfTransposes(rows, j);
  }

  /** With distinct names and rows of at least one value per name, the arrays are the transposed rows; extra values are dropped. */
  lemma RowArrays(names: seq<string>, rows: seq<seq<Value>>, cols: seq<seq<Value>>, pairs: seq<(string, ColumnArg)>)
    requires PyLib.Distinct(names) && forall i :: 0 <= i < |rows| ==> |rows[i]| >= |names|
    requires |cols| == |names| && forall j :: 0 <= j < |names| ==> cols[j] == ColumnOf(rows, j)
    requires |pairs| == |names| && forall j :: 0 <= j < |names| ==> pairs[j] == (names[j], Arr(Vector(cols[j])))
    ensures FromPairs(pairs).names == names && AllWrap(FromPairs(pairs))
    ensures var arrs := ArgArrs(FromPairs(pairs));
      && (forall j :: 0 <= j < |arrs| ==> |arrs[j]| == |rows|)
      && (forall j, i :: 0 <= j < |arrs| && 0 <= i < |rows| ==> arrs[j][i] == rows[i][j])
  {
    PairsDict(names, cols, pairs);
    var arrs := ArgArrs(FromPairs(pairs));
    assert |arrs| == |names|;
    forall j | 0 <= j < |arrs|
      ensures |arrs[j]| == |rows|
      ensures forall i :: 0 <= i < |rows| ==> arrs[j][i] == rows[i][j]
    {
      WideColumn(rows, |names|, j, arrs[j]);
    }
  }

  /** The dict of `from_row_seqs` holds, under distinct names, the arrays of the column lists in name order. */
  lemma PairsDict(names: seq<string>, cols: seq<seq<Value>>, pairs: seq<(string, ColumnArg)>)
    requires PyLib.Distinct(names) && |cols| == |names|
    requires |pairs| == |names| && forall j :: 0 <= j < |names| ==> pairs[j] == (names[j], Arr(Vector(cols[j])))
    ensures FromPairs(pairs).names == names && AllWrap(FromPairs(pairs))
    ensures forall j :: 0 <= j < |names| ==> ArgArrs(FromPairs(pairs))[j] == cols[j]
  {
    assert Names(pairs) == names;
    FromDistinctPairs(pairs);
    var d := FromPairs(pairs);
    forall j | 0 <= j < |names| ensures names[j] in d.m && d.m[names[j]] == pairs[j].1 {
      assert pairs[j].0 == names[j] && Names(pairs)[j] == names[j];
    }
  }

  /**
   * `from_row_seqs(names, rows)`: the table of the columns, named in order;
   * a repeated name keeps its first place and its last column; values of a
   * row past the last name are dropped, as `zip` drops them.
   */
  method FromRowSeqs(names: seq<string>, rows: seq<seq<Value>>) returns (r: Result<Table, Error>)
    ensures PyLib.Distinct(names) && (forall i :: 0 <= i < |rows| ==> |rows[i]| >= |names|) ==>
      && r.Ok? && r.value.Valid() && r.value.cols.names == names
      && r.value.length == (if names == [] then 0 else |rows|)
      && forall j, i :: 0 <= j < |names| && 0 <= i < |rows| ==> r.value.cols.m[names[j]].arr[i] == rows[i][j]
  {
    var cols := RowColumns(|names|, rows);
    var pairs := seq(|names|, j requires 0 <= j < |names| => (names[j], Arr(Vector(cols[j]))));
    var d := FromPairs(pairs);
    assert Given(d) == {} by {
      UpdateKeepsAll(Empty(), pairs, (a: ColumnArg) => a.Arr? && a.nd.Vector?);
    }
    var fits := PyLib.Distinct(names) && forall i :: 0 <= i < |rows| ==> |rows[i]| >= |names|;
    if fits {
      RowArrays(names, rows, cols, pairs);
    }
    r := NewTable(d);
    if fits {
      assert r.Ok?;
      RowsTable(names, rows, d, r.value);
    }
  }

  /** The table made from arrays that transpose the rows holds each row's first values, one per name. */
  lemma RowsTable(names: seq<string>, rows: seq<seq<Value>>, d: ODict<ColumnArg>, t: Table)
    requires d.Valid() && AllWrap(d) && d.names == names && forall i :: 0 <= i < |rows| ==> |rows[i]| >= |names|
    requires var arrs := ArgArrs(d);
      && (forall j :: 0 <= j < |arrs| ==> |arrs[j]| == |rows|)
      && (forall j, i :: 0 <= j < |arrs| && 0 <= i < |rows| ==> arrs[j][i] == rows[i][j])
    requires var arrs := ArgArrs(d);
      && t.Valid() && t.cols.names == d.names
      && t.length == (if arrs == [] then 0 else |arrs[0]|)
      && (forall j :: 0 <= j < |arrs| ==> t.cols.m[d.names[j]].arr == arrs[j])
    ensures t.length == (if names == [] then 0 else |rows|)
    ensures forall j, i :: 0 <= j < |names| && 0 <= i < |rows| ==> t.cols.m[names[j]].arr[i] == rows[i][j]
  {
    var arrs := ArgArrs(d);
    forall j, i | 0 <= j < |names| && 0 <= i < |rows| ensures t.cols.m[names[j]].arr[i] == rows[i][j] {
      assert t.cols.m[names[j]].arr == arrs[j];
    }
  }
}
