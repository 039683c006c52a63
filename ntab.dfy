/**
 * The mutable `ntab` table: named parallel one-dimensional arrays with an
 * optional row count. Columns are added, replaced and removed in place;
 * masks, filters and lookups build new tables from the selected rows.
 */
module NTab {
  import opened Wrappers
  import opened Values
  import opened Errors
  import opened ODict
  import Columns
  import PyLib
  import Tables
  import Build

  /** An argument where an array is expected: something `np.array` makes an array of, or a scalar. */
  datatype Obj = Array(nd: Columns.NdArray) | Scalar(v: Value)

  /** The first position whose entry fails `ok`, if any. */
  function FirstNot<T>(xs: seq<T>, ok: T -> bool): (r: Option<nat>)
    ensures r.None? <==> forall j :: 0 <= j < |xs| ==> ok(xs[j])
    ensures r.Some? ==> r.value < |xs| && !ok(xs[r.value])
    ensures r.Some? ==> forall j :: 0 <= j < r.value ==> ok(xs[j])
  {
    if xs == [] then None
    else if !ok(xs[0]) then Some(0)
    else match FirstNot(xs[1..], ok)
      case None => None
      case Some(j) => Some(j + 1)
  }

  /** `len(obj)`: an array's first extent; a string's length; a number has none. */
  function LenOf(o: Obj): (r: Option<nat>)
    ensures o.Array? ==> r == Columns.Len(o.nd)
    ensures o.Scalar? ==> (r.Some? <==> o.v.Str?)
  {
    match o
    case Array(nd) => Columns.Len(nd)
    case Scalar(v) => if v.Str? then Some(|v.s|) else None
  }

  /**
   * `_ensure_array(obj, length)`: an array is taken as it is, a scalar is
   * broadcast to `length` entries; the result must be one-dimensional and,
   * when a length is given, of that length.
   */
  function EnsureArray(o: Obj, length: Option<nat>): (r: Result<seq<Value>, Error>)
    ensures r.Ok? && length.Some? ==> |r.value| == length.value
    ensures o.Array? && o.nd.Other? ==> r == Err(ValueError("not one-dimensional"))
    ensures o.Array? && o.nd.Vector? ==>
      if length.Some? && |o.nd.items| != length.value then r == Err(ValueError("wrong length"))
      else r == Ok(o.nd.items)
    ensures o.Scalar? ==> (r.Ok? <==> length.Some?)
    ensures o.Scalar? && r.Err? ==> r.error == ValueError("not one-dimensional")
    ensures o.Scalar? && r.Ok? ==> forall i :: 0 <= i < |r.value| ==> r.value[i] == o.v
  {
    match o
    case Scalar(v) =>
      if length.None? then Err(ValueError("not one-dimensional"))
      else Ok(seq(length.value, _ => v))
    case Array(nd) =>
      if nd.Other? then Err(ValueError("not one-dimensional"))
      else if length.Some? && |nd.items| != length.value then Err(ValueError("wrong length"))
      else Ok(nd.items)
  }

  /** What `_ensure_array` accepts it gives back unchanged when asked again. */
  lemma EnsureArrayIdempotent(o: Obj, length: Option<nat>)
    requires EnsureArray(o, length).Ok?
    ensures var a := EnsureArray(o, length).value;
      EnsureArray(Array(Columns.Vector(a)), length) == Ok(a)
      && (length.None? ==> EnsureArray(Array(Columns.Vector(a)), Some(|a|)) == Ok(a))
  {
  }

  /** Every argument through `_ensure_array`, in name order; the first rejected one raises. */
  function Ensured(d: ODict<Obj>, length: Option<nat>): (r: Result<ODict<seq<Value>>, Error>)
    requires d.Valid()
    ensures r.Err? <==> FirstNot(d.Values(), o => EnsureArray(o, length).Ok?).Some?
    ensures r.Err? ==> var j := FirstNot(d.Values(), o => EnsureArray(o, length).Ok?).value;
      r.error == EnsureArray(d.m[d.names[j]], length).error
    ensures r.Ok? ==> r.value.Valid() && r.value.names == d.names
    ensures r.Ok? ==> forall n :: n in r.value.m <==> n in d.m
    ensures r.Ok? ==> forall n :: n in d.m ==> EnsureArray(d.m[n], length) == Ok(r.value.m[n])
  {
    var objs := d.Values();
    match FirstNot(objs, o => EnsureArray(o, length).Ok?)
    case Some(j) => Err(EnsureArray(objs[j], length).error)
    case None =>
      assert forall n :: n in d.m ==> EnsureArray(d.m[n], length).Ok? by {
        forall n | n in d.m ensures EnsureArray(d.m[n], length).Ok? {
          var i := PyLib.IndexOf(d.names, n);
          assert objs[i] == d.m[n];
        }
      }
      Ok(ODict(d.names, map n | n in d.m :: EnsureArray(d.m[n], length).value))
  }

  /** The row count `__init__` takes: the length of the first argument that has one. */
  function FirstLength(objs: seq<Obj>): (r: Option<nat>)
    ensures r.None? <==> forall j :: 0 <= j < |objs| ==> LenOf(objs[j]).None?
    ensures r.Some? ==> exists j :: 0 <= j < |objs| && LenOf(objs[j]) == r
  {
    match FirstNot(objs, o => LenOf(o).None?)
    case None => None
    case Some(j) => LenOf(objs[j])
  }

  // ---- Table states ------------------------------------------------------------------

  /** The two fields of a table: the row count, unset until a column has given one, and the arrays by name. */
  datatype State = State(length: Option<nat>, arrs: ODict<seq<Value>>)
  {
    /** A table with columns has a row count, and every array has that many entries. */
    ghost predicate Valid()
    {
      && arrs.Valid()
      && (length.None? ==> arrs.names == [])
      && (forall n :: n in arrs.m ==> length.Some? && |arrs.m[n]| == length.value)
    }

    /** `num_rows`: the row count, 0 when none is set. */
    function NumRows(): (k: nat)
      ensures length.None? ==> k == 0
      ensures length.Some? ==> k == length.value
      ensures Valid() ==> forall n :: n in arrs.m ==> |arrs.m[n]| == k
    {
      if length.None? then 0 else length.value
    }
  }

  /** The `(name, array)` pairs of a dict of arrays, in name order. */
  function Pairs(arrs: ODict<seq<Value>>): (ps: seq<(string, seq<Value>)>)
    requires arrs.Valid()
    ensures Names(ps) == arrs.names && DistinctNames(ps)
    ensures forall i :: 0 <= i < |ps| ==> ps[i].1 == arrs.m[arrs.names[i]]
  {
    seq(|arrs.names|, i requires 0 <= i < |arrs.names| => (arrs.names[i], arrs.m[arrs.names[i]]))
  }

  /**
   * `Table(...)`: the row count is the first argument's length, which some
   * argument must have; then every argument is made an array of that length.
   * The arrays that come out pass `__check`, which only repeats those checks.
   */
  function InitState(d: ODict<Obj>): (r: Result<State, Error>)
    requires d.Valid()
    ensures d.names != [] && FirstLength(d.Values()).None? ==> r == Err(ValueError("no arrs have length"))
    ensures d.names == [] ==> r == Ok(State(None, Empty()))
    ensures d.names != [] && FirstLength(d.Values()).Some? ==>
      var length := FirstLength(d.Values());
      && (r.Ok? <==> Ensured(d, length).Ok?)
      && (r.Err? ==> r.error == Ensured(d, length).error)
      && (r.Ok? ==> r.value == State(length, Ensured(d, length).value))
    ensures r.Ok? ==> r.value.Valid() && r.value.arrs.names == d.names
  {
    var length := FirstLength(d.Values());
    if length.None? && d.names != [] then Err(ValueError("no arrs have length"))
    else
      match Ensured(d, length)
      case Err(e) => Err(e)
      case Ok(arrs) => Ok(State(length, arrs))
  }

  /** The arguments of a table made of existing arrays. */
  function Vectors(arrs: ODict<seq<Value>>): (d: ODict<Obj>)
    requires arrs.Valid()
    ensures d.Valid() && d.names == arrs.names
    ensures forall n :: n in d.m <==> n in arrs.m
    ensures forall n :: n in d.m ==> d.m[n] == Array(Columns.Vector(arrs.m[n]))
  {
    ODict(arrs.names, map n | n in arrs.m :: Array(Columns.Vector(arrs.m[n])))
  }

  /** A table of arrays of one common length is made without error, holding exactly those arrays. */
  lemma InitVectors(arrs: ODict<seq<Value>>, k: nat)
    requires arrs.Valid() && forall n :: n in arrs.m ==> |arrs.m[n]| == k
    ensures InitState(Vectors(arrs)) == Ok(State(if arrs.names == [] then None else Some(k), arrs))
  {
    var d := Vectors(arrs);
    if arrs.names != [] {
      VectorsFirstLength(arrs, k);
      VectorsEnsured(arrs, k);
    } else {
      assert d == ODict([], map[]);
      assert arrs == ODict([], map[]);
    }
  }

  /** The first of several arrays of one common length gives that length. */
  lemma VectorsFirstLength(arrs: ODict<seq<Value>>, k: nat)
    requires arrs.Valid() && arrs.names != [] && forall n :: n in arrs.m ==> |arrs.m[n]| == k
    ensures FirstLength(Vectors(arrs).Values()) == Some(k)
  {
    var objs := Vectors(arrs).Values();
    assert objs[0] == Array(Columns.Vector(arrs.m[arrs.names[0]]));
    assert FirstNot(objs, o => LenOf(o).None?) == Some(0);
  }

  /** Arrays of the common length are all taken unchanged. */
  lemma VectorsEnsured(arrs: ODict<seq<Value>>, k: nat)
    requires arrs.Valid() && forall n :: n in arrs.m ==> |arrs.m[n]| == k
    ensures Ensured(Vectors(arrs), Some(k)) == Ok(arrs)
  {
    var d := Vectors(arrs);
    var objs := d.Values();
    forall j | 0 <= j < |objs| ensures EnsureArray(objs[j], Some(k)).Ok? {
      assert objs[j] == d.m[d.names[j]];
    }
    var e := Ensured(d, Some(k)).value;
    assert e.m == arrs.m;
  }

  /** The rows `idxs` of `s`, in that order: every array read at those positions, names kept. */
  function Taken(s: State, idxs: seq<nat>): (t: State)
    requires s.Valid() && forall p :: 0 <= p < |idxs| ==> idxs[p] < s.NumRows()
    ensures t.Valid() && t.arrs.names == s.arrs.names
    ensures t.length == if s.arrs.names == [] then None else Some(|idxs|)
    ensures forall n :: n in t.arrs.m <==> n in s.arrs.m
    ensures forall n :: n in s.arrs.m ==> |s.arrs.m[n]| == s.NumRows() && t.arrs.m[n] == PyLib.Take(s.arrs.m[n], idxs)
  {
    assert forall n :: n in s.arrs.m ==> |s.arrs.m[n]| == s.NumRows();
    State(if s.arrs.names == [] then None else Some(|idxs|),
      ODict(s.arrs.names, map n | n in s.arrs.m :: PyLib.Take(s.arrs.m[n], idxs)))
  }

  /**
   * `_take_rows(idxs)` and `__get_subtable`: a new table built by the
   * constructor from every array read at the positions `idxs`; the
   * constructor accepts them, since they all have `|idxs|` entries.
   */
  function TakeRows(s: State, idxs: seq<nat>): (r: Result<State, Error>)
    requires s.Valid() && forall p :: 0 <= p < |idxs| ==> idxs[p] < s.NumRows()
    ensures r == Ok(Taken(s, idxs))
  {
    var taken := Taken(s, idxs).arrs;
    InitVectors(taken, |idxs|);
    InitState(Vectors(taken))
  }

  // ---- Adding and removing columns -----------------------------------------------------

  /** `__check`'s length test over arrays in name order: the first whose length is not `length`. */
  function FirstWrongLength(arrs: seq<seq<Value>>, length: nat): (r: Option<nat>)
    ensures r.None? <==> forall j :: 0 <= j < |arrs| ==> |arrs[j]| == length
    ensures r.Some? ==> r.value < |arrs| && |arrs[r.value]| != length
    ensures r.Some? ==> forall j :: 0 <= j < r.value ==> |arrs[j]| == length
  {
    if arrs == [] then None
    else if |arrs[0]| != length then Some(0)
    else match FirstWrongLength(arrs[1..], length)
      case None => None
      case Some(j) => Some(j + 1)
  }

  /** The row count once `add` has its arrays: unchanged, or the first new array's length for a table without columns. */
  function AddLength(s: State, arrs: ODict<seq<Value>>): (length: nat)
    requires s.Valid() && arrs.Valid() && arrs.names != []
    ensures s.arrs.names != [] ==> length == s.NumRows()
    ensures s.arrs.names == [] ==> arrs.names[0] in arrs.m && length == |arrs.m[arrs.names[0]]|
  {
    if s.arrs.names == [] then |arrs.m[arrs.names[0]]| else s.length.value
  }

  /**
   * `add(...)`: every argument is made an array of the table's row count;
   * a table without columns takes the first array's length; `__check`
   * rejects an array of another length, and otherwise the arrays are
   * assigned in order, replacing columns of the same name in place.
   * A rejected `add` changes nothing.
   */
  function AddState(s: State, d: ODict<Obj>): (r: Result<State, Error>)
    requires s.Valid() && d.Valid()
    ensures Ensured(d, s.length).Err? ==> r == Err(Ensured(d, s.length).error)
    ensures r.Ok? ==> r.value.Valid()
    ensures r.Ok? ==> forall n :: n in r.value.arrs.m <==> n in s.arrs.m || n in d.m
    ensures r.Ok? ==> forall n :: n in s.arrs.m && n !in d.m ==> r.value.arrs.m[n] == s.arrs.m[n]
    ensures r.Ok? ==> forall n :: n in d.m ==> r.value.arrs.m[n] == Ensured(d, s.length).value.m[n]
    ensures r.Ok? ==> |s.arrs.names| <= |r.value.arrs.names| && r.value.arrs.names[..|s.arrs.names|] == s.arrs.names
    ensures r.Ok? && s.arrs.names != [] ==> r.value.length == s.length
    ensures r.Ok? && (forall n :: n in d.m ==> n in s.arrs.m) ==> r.value.arrs.names == s.arrs.names
  {
    match Ensured(d, s.length)
    case Err(e) => Err(e)
    case Ok(arrs) =>
      if arrs.names == [] then
        assert forall n :: n !in d.m;
        Ok(s)
      else
        var length := AddLength(s, arrs);
        match FirstWrongLength(arrs.Values(), length)
        case Some(j) => Err(ValueError("wrong length: " + arrs.names[j]))
        case None =>
          AddUpdate(s, d, arrs, length);
          Ok(State(Some(length), s.arrs.Update(Pairs(arrs))))
  }

  /** Assigning the checked arrays in order: every array has the new row count, and only the given names change. */
  lemma AddUpdate(s: State, d: ODict<Obj>, arrs: ODict<seq<Value>>, length: nat)
    requires s.Valid() && d.Valid() && arrs.Valid() && forall n :: n in arrs.m <==> n in d.m
    requires forall n :: n in s.arrs.m ==> |s.arrs.m[n]| == length
    requires FirstWrongLength(arrs.Values(), length).None?
    ensures var t := s.arrs.Update(Pairs(arrs));
      && State(Some(length), t).Valid()
      && (forall n :: n in t.m <==> n in s.arrs.m || n in d.m)
      && (forall n :: n in s.arrs.m && n !in d.m ==> t.m[n] == s.arrs.m[n])
      && (forall n :: n in d.m ==> t.m[n] == arrs.m[n])
      && ((forall n :: n in d.m ==> n in s.arrs.m) ==> t.names == s.arrs.names)
  {
    CheckedLengths(arrs, length);
    UpdateAllOfLength(s.arrs, arrs, length);
    UpdateKeepsOthers(s.arrs, arrs);
    UpdateSetsGiven(s.arrs, arrs);
    if forall n :: n in d.m ==> n in s.arrs.m {
      UpdateExistingNames(s.arrs, arrs);
    }
  }

  /** Assigning arrays of the row count to a dict whose arrays have it leaves every array of that length. */
  lemma UpdateAllOfLength(prev: ODict<seq<Value>>, arrs: ODict<seq<Value>>, length: nat)
    requires prev.Valid() && arrs.Valid()
    requires forall n :: n in prev.m ==> |prev.m[n]| == length
    requires forall n :: n in arrs.m ==> |arrs.m[n]| == length
    ensures State(Some(length), prev.Update(Pairs(arrs))).Valid()
  {
    var ps := Pairs(arrs);
    assert forall i :: 0 <= i < |ps| ==> |ps[i].1| == length by {
      assert forall i :: 0 <= i < |ps| ==> arrs.names[i] in arrs.m;
    }
    UpdateKeepsAll(prev, ps, (a: seq<Value>) => |a| == length);
  }

  /** Names not assigned keep their arrays. */
  lemma UpdateKeepsOthers(prev: ODict<seq<Value>>, arrs: ODict<seq<Value>>)
    requires prev.Valid() && arrs.Valid()
    ensures forall n :: n in prev.m && n !in arrs.m ==> prev.Update(Pairs(arrs)).m[n] == prev.m[n]
  {
    forall n | n in prev.m && n !in arrs.m ensures prev.Update(Pairs(arrs)).m[n] == prev.m[n] {
      UpdateKeeps(prev, Pairs(arrs), n);
    }
  }

  /** Assigned names take their new arrays. */
  lemma UpdateSetsGiven(prev: ODict<seq<Value>>, arrs: ODict<seq<Value>>)
    requires prev.Valid() && arrs.Valid()
    ensures forall n :: n in arrs.m ==> prev.Update(Pairs(arrs)).m[n] == arrs.m[n]
  {
    forall n | n in arrs.m ensures prev.Update(Pairs(arrs)).m[n] == arrs.m[n] {
      UpdateDistinctValues(prev, Pairs(arrs), PyLib.IndexOf(arrs.names, n));
    }
  }


  /** Assigning arrays under names already present keeps the order of the names. */
  lemma UpdateExistingNames(prev: ODict<seq<Value>>, arrs: ODict<seq<Value>>)
    requires prev.Valid() && arrs.Valid() && forall n :: n in arrs.m ==> n in prev.m
    ensures prev.Update(Pairs(arrs)).names == prev.names
  {
    var ps := Pairs(arrs);
    assert forall i :: 0 <= i < |ps| ==> ps[i].0 in prev.m by {
      assert forall i :: 0 <= i < |ps| ==> ps[i].0 == arrs.names[i] && arrs.names[i] in arrs.m;
    }
    UpdateExisting(prev, ps);
  }

  /** Arrays that pass the length check in name order all have that length. */
  lemma CheckedLengths(arrs: ODict<seq<Value>>, length: nat)
    requires arrs.Valid() && FirstWrongLength(arrs.Values(), length).None?
    ensures forall n :: n in arrs.m ==> |arrs.m[n]| == length
  {
    forall n | n in arrs.m ensures |arrs.m[n]| == length {
      var i := PyLib.IndexOf(arrs.names, n);
      assert arrs.Values()[i] == arrs.m[n];
    }
  }

  /** `remove(name)`: an absent name raises `ValueError`; removing the last column sets the row count to 0. */
  function RemoveState(s: State, name: string): (r: Result<State, Error>)
    requires s.Valid()
    ensures r.Err? <==> name !in s.arrs.m
    ensures r.Err? ==> r.error == ValueError(name)
    ensures r.Ok? ==> r.value.Valid() && r.value.arrs == s.arrs.Remove(name)
    ensures r.Ok? ==> r.value.length == if r.value.arrs.names == [] then Some(0) else s.length
  {
    if name !in s.arrs.m then Err(ValueError(name))
    else
      var arrs := s.arrs.Remove(name);
      Ok(State(if arrs.names == [] then Some(0) else s.length, arrs))
  }

  /** A table with no columns and no row count, as `Table()` makes it. */
  function Fresh(): (s: State)
    ensures s.Valid() && s.NumRows() == 0 && s.arrs.names == []
  {
    State(None, Empty())
  }

  /** A dict with one argument. */
  function One(n: string, o: Obj): (d: ODict<Obj>)
    ensures d.Valid() && d.names == [n] && n in d.m && d.m[n] == o
  {
    ODict([n], map[n := o])
  }

  /** Adding a one-dimensional array to a fresh table sets the row count to its length. */
  lemma AddToFresh(n: string, a: seq<Value>)
    ensures AddState(Fresh(), One(n, Array(Columns.Vector(a))))
      == Ok(State(Some(|a|), ODict([n], map[n := a])))
  {
    OneEnsured(n, a);
    var arrs := Ensured(One(n, Array(Columns.Vector(a))), None).value;
    assert arrs.Values() == [a];
    assert Empty<seq<Value>>().Update(Pairs(arrs)) == ODict([n], map[n := a]);
  }

  /** A single one-dimensional array is taken unchanged by a table without a row count. */
  lemma OneEnsured(n: string, a: seq<Value>)
    ensures Ensured(One(n, Array(Columns.Vector(a))), None).Ok?
    ensures Ensured(One(n, Array(Columns.Vector(a))), None).value.names == [n]
    ensures Ensured(One(n, Array(Columns.Vector(a))), None).value.m == map[n := a]
  {
    var d := One(n, Array(Columns.Vector(a)));
    assert d.Values() == [Array(Columns.Vector(a))];
  }

  /** An array whose length is not the row count of a table with columns is rejected. */
  lemma AddRejectsWrongLength(s: State, d: ODict<Obj>, n: string)
    requires s.Valid() && d.Valid() && s.arrs.names != []
    requires n in d.m && d.m[n].Array? && d.m[n].nd.Vector? && |d.m[n].nd.items| != s.NumRows()
    ensures AddState(s, d).Err? && AddState(s, d).error.ValueError?
  {
    var j := PyLib.IndexOf(d.names, n);
    assert d.Values()[j] == d.m[n];
    var k := FirstNot(d.Values(), o => EnsureArray(o, s.length).Ok?).value;
    assert d.Values()[k] == d.m[d.names[k]];
  }

  /**
   * Adding arrays under names the table already has replaces those columns
   * in place: the names, their order, the row count and the other columns stay.
   */
  lemma AddExisting(s: State, d: ODict<Obj>)
    requires s.Valid() && d.Valid() && AddState(s, d).Ok?
    requires s.arrs.names != [] && forall x :: x in d.m ==> x in s.arrs.m
    ensures var t := AddState(s, d).value;
      && t.arrs.names == s.arrs.names && t.length == s.length
      && (forall x :: x in d.m ==> t.arrs.m[x] == EnsureArray(d.m[x], s.length).value)
      && forall x :: x in s.arrs.m && x !in d.m ==> t.arrs.m[x] == s.arrs.m[x]
  {
  }

  /**
   * Removing the only column leaves a table whose row count is 0, not
   * unset, so adding any non-empty array to it is rejected as the wrong
   * length, while a fresh table takes it.
   */
  lemma RemoveLastThenAdd(s: State, name: string, n: string, a: seq<Value>)
    requires s.Valid() && s.arrs.names == [name] && a != []
    ensures RemoveState(s, name).Ok?
    ensures var t := RemoveState(s, name).value;
      && t.arrs.names == [] && t.NumRows() == 0
      && AddState(t, One(n, Array(Columns.Vector(a)))) == Err(ValueError("wrong length"))
      && AddState(Fresh(), One(n, Array(Columns.Vector(a)))).Ok?
  {
    var t := RemoveState(s, name).value;
    var d := One(n, Array(Columns.Vector(a)));
    assert d.Values() == [Array(Columns.Vector(a))];
    AddToFresh(n, a);
  }

  // ---- `add` as written ------------------------------------------------------------

  /**
   * `add` as written: a table without columns takes the first new array's
   * length before `__check` runs, and keeps that length when the check then
   * rejects another array.
   */
  function AddAsWritten(s: State, d: ODict<Obj>): (r: (State, Result<(), Error>))
    requires s.Valid() && d.Valid()
    ensures r.1.Ok? ==> AddState(s, d).Ok? && r.0 == AddState(s, d).value
    ensures r.1.Err? ==> AddState(s, d).Err? && r.1.error == AddState(s, d).error
    ensures r.1.Err? ==> r.0.arrs == s.arrs
  {
    match Ensured(d, s.length)
    case Err(e) => (s, Err(e))
    case Ok(arrs) =>
      if arrs.names == [] then (s, Ok(()))
      else
        var length := AddLength(s, arrs);
        match FirstWrongLength(arrs.Values(), length)
        case Some(j) => (State(Some(length), s.arrs), Err(ValueError("wrong length: " + arrs.names[j])))
        case None => (AddState(s, d).value, Ok(()))
  }

  /** The arguments `a=[1, 2], b=[1]`. */
  function UnevenPair(): (d: ODict<Obj>)
    ensures d.Valid() && d.Values() == [Array(Columns.Vector([Int(1), Int(2)])), Array(Columns.Vector([Int(1)]))]
  {
    ODict(["a", "b"], map["a" := Array(Columns.Vector([Int(1), Int(2)])), "b" := Array(Columns.Vector([Int(1)]))])
  }

  /** On a fresh table, `add(a=[1, 2], b=[1])` fails on `b`; as written the table, still without columns, now has two rows. */
  lemma AddAsWrittenKeepsLength()
    ensures AddAsWritten(Fresh(), UnevenPair()) == (State(Some(2), Empty()), Err(ValueError("wrong length: b")))
    ensures AddState(Fresh(), UnevenPair()) == Err(ValueError("wrong length: b"))
  {
    var d := UnevenPair();
    UnevenEnsured();
    var arrs := Ensured(d, None).value;
    assert FirstWrongLength(arrs.Values(), 2) == Some(1) by {
      assert arrs.Values() == [[Int(1), Int(2)], [Int(1)]];
    }
    assert AddLength(Fresh(), arrs) == 2;
    assert "wrong length: " + arrs.names[1] == "wrong length: b";
  }

  /** Both arguments of `UnevenPair` are accepted as arrays by a table without a row count. */
  lemma UnevenEnsured()
    ensures Ensured(UnevenPair(), None).Ok?
    ensures Ensured(UnevenPair(), None).value.names == ["a", "b"]
    ensures Ensured(UnevenPair(), None).value.m == map["a" := [Int(1), Int(2)], "b" := [Int(1)]]
  {
    var d := UnevenPair();
    var ok := (o: Obj) => EnsureArray(o, None).Ok?;
    assert ok(d.Values()[0]) && ok(d.Values()[1]);
    assert FirstNot(d.Values(), ok) == None;
  }

  /** After that failed `add`, as written a three-row array is rejected, which a fresh table takes. */
  lemma AddAsWrittenThenRejects()
    ensures var c := One("c", Array(Columns.Vector([Int(1), Int(2), Int(3)])));
      && AddAsWritten(State(Some(2), Empty()), c).1 == Err(ValueError("wrong length"))
      && AddState(Fresh(), c).Ok?
  {
    var o := Array(Columns.Vector([Int(1), Int(2), Int(3)]));
    var c := One("c", o);
    assert Ensured(c, Some(2)) == Err(ValueError("wrong length")) by {
      assert c.Values() == [o];
      assert EnsureArray(o, Some(2)) == Err(ValueError("wrong length"));
    }
    AddToFresh("c", [Int(1), Int(2), Int(3)]);
  }

  // ---- Masks, filters and lookups ------------------------------------------------------

  /** `mask(mask)`: a mask whose shape is not the row count raises; otherwise the rows where it is true, in order. */
  function MaskState(s: State, mask: seq<bool>): (r: Result<State, Error>)
    requires s.Valid()
    ensures r.Err? <==> s.length.None? || |mask| != s.length.value
    ensures r.Err? ==> r.error == ValueError("wrong shape")
    ensures r.Ok? ==> var ps := Tables.MaskPositions(mask);
      && r.value.Valid() && r.value.arrs.names == s.arrs.names
      && forall n :: n in s.arrs.m ==> r.value.arrs.m[n] == PyLib.Take(s.arrs.m[n], ps)
  {
    if s.length.None? || |mask| != s.length.value then Err(ValueError("wrong shape"))
    else TakeRows(s, Tables.MaskPositions(mask))
  }

  /** Row `i` has every selected column equal to its selected value. */
  predicate RowMatches(arrs: map<string, seq<Value>>, sel: seq<(string, Value)>, i: int)
  {
    forall k :: 0 <= k < |sel| ==> sel[k].0 in arrs && 0 <= i < |arrs[sel[k].0]| && arrs[sel[k].0][i] == sel[k].1
  }

  /** One more selection narrows the matching rows by its own test. */
  lemma RowMatchesStep(arrs: map<string, seq<Value>>, sel: seq<(string, Value)>, k: nat, i: nat)
    requires k < |sel|
    ensures RowMatches(arrs, sel[..k + 1], i) <==>
      RowMatches(arrs, sel[..k], i) && sel[k].0 in arrs && i < |arrs[sel[k].0]| && arrs[sel[k].0][i] == sel[k].1
  {
    assert forall j :: 0 <= j < k ==> sel[..k + 1][j] == sel[..k][j];
    assert sel[..k + 1][k] == sel[k];
  }

  /** `mask &= arr == value`: clears, in place, every entry whose row does not hold `value`. */
  method NarrowMask(mask: array<bool>, a: seq<Value>, value: Value)
    requires |a| == mask.Length
    modifies mask
    ensures forall i :: 0 <= i < mask.Length ==> (mask[i] <==> old(mask[i]) && a[i] == value)
  {
    for i := 0 to mask.Length
      invariant forall j :: 0 <= j < i ==> (mask[j] <==> old(mask[j]) && a[j] == value)
      invariant forall j :: i <= j < mask.Length ==> mask[j] == old(mask[j])
    {
      if mask[i] {
        mask[i] := a[i] == value;
      }
    }
  }

  /** The first selection naming no column is the one `filter_mask` reports. */
  lemma FirstUnknownSelection(arrs: map<string, seq<Value>>, sel: seq<(string, Value)>, k: nat)
    requires k < |sel| && sel[k].0 !in arrs && forall j :: 0 <= j < k ==> sel[j].0 in arrs
    ensures Tables.FirstAbsent(Names(sel), arrs) == Some(k)
  {
    assert Names(sel)[k] == sel[k].0;
  }

  /** After the selection at `k`, the mask holds exactly the rows matching the selections up to `k`. */
  lemma NarrowStep(arrs: map<string, seq<Value>>, sel: seq<(string, Value)>, k: nat, before: seq<bool>, after: seq<bool>)
    requires k < |sel| && sel[k].0 in arrs && |after| == |arrs[sel[k].0]| && (k > 0 ==> |before| == |after|)
    requires forall i :: 0 <= i < |after| ==> (after[i] <==> (k == 0 || before[i]) && arrs[sel[k].0][i] == sel[k].1)
    requires k > 0 ==> forall i :: 0 <= i < |before| ==> (before[i] <==> RowMatches(arrs, sel[..k], i))
    ensures forall i :: 0 <= i < |after| ==> (after[i] <==> RowMatches(arrs, sel[..k + 1], i))
  {
    forall i | 0 <= i < |after| ensures after[i] <==> RowMatches(arrs, sel[..k + 1], i) {
      RowMatchesStep(arrs, sel, k, i);
    }
  }

  /**
   * What `filter_mask(**sel)` returns: nothing for no selections; `KeyError`
   * for the first selected name the table lacks; otherwise, per row, whether
   * every selected column holds its value there.
   */
  function FilterMaskOf(s: State, sel: seq<(string, Value)>): (r: Result<Option<seq<bool>>, Error>)
    requires s.Valid()
  {
    if sel == [] then Ok(None)
    else match Tables.FirstAbsent(Names(sel), s.arrs.m)
      case Some(j) => Err(KeyError([Str(sel[j].0)]))
      case None => Ok(Some(seq(s.NumRows(), i => RowMatches(s.arrs.m, sel, i))))
  }

  /** A mask holding, per row, whether every selection holds is what `filter_mask` returns once every name is present. */
  lemma MaskIsFilterMaskOf(s: State, sel: seq<(string, Value)>, m: seq<bool>)
    requires s.Valid() && sel != [] && forall j :: 0 <= j < |sel| ==> sel[j].0 in s.arrs.m
    requires |m| == s.NumRows() && forall i :: 0 <= i < |m| ==> (m[i] <==> RowMatches(s.arrs.m, sel, i))
    ensures FilterMaskOf(s, sel) == Ok(Some(m))
  {
    assert Tables.FirstAbsent(Names(sel), s.arrs.m).None?;
    assert seq(s.NumRows(), i => RowMatches(s.arrs.m, sel, i)) == m;
  }

  /** The rows where every selection holds, in ascending order. */
  function Matching(s: State, sel: seq<(string, Value)>): (ps: seq<nat>)
    requires s.Valid()
    ensures forall p :: 0 <= p < |ps| ==> ps[p] < s.NumRows() && RowMatches(s.arrs.m, sel, ps[p])
    ensures forall i :: 0 <= i < s.NumRows() && RowMatches(s.arrs.m, sel, i) ==> i in ps
    ensures forall p, q :: 0 <= p < q < |ps| ==> ps[p] < ps[q]
  {
    Tables.MaskPositions(seq(s.NumRows(), i => RowMatches(s.arrs.m, sel, i)))
  }

  /** `filter(**sel)`: `mask(filter_mask(**sel))`; with no selections the missing mask has the wrong shape. */
  function FilterOf(s: State, sel: seq<(string, Value)>): (r: Result<State, Error>)
    requires s.Valid()
  {
    match FilterMaskOf(s, sel)
    case Err(e) => Err(e)
    case Ok(None) => Err(ValueError("wrong shape"))
    case Ok(Some(m)) => MaskState(s, m)
  }

  /**
   * `filter` keeps, from every column, exactly the rows where each selected
   * column holds its selected value, in their order; a selected name the
   * table lacks raises `KeyError`, and no selections raise `ValueError`.
   */
  lemma FilterKeepsMatchingRows(s: State, sel: seq<(string, Value)>)
    requires s.Valid()
    ensures sel == [] ==> FilterOf(s, sel) == Err(ValueError("wrong shape"))
    ensures Tables.FirstAbsent(Names(sel), s.arrs.m).Some? ==>
      var j := Tables.FirstAbsent(Names(sel), s.arrs.m).value;
      FilterOf(s, sel) == Err(KeyError([Str(sel[j].0)]))
    ensures sel != [] && Tables.FirstAbsent(Names(sel), s.arrs.m).None? ==>
      && FilterOf(s, sel).Ok?
      && FilterOf(s, sel).value.arrs.names == s.arrs.names
      && forall n :: n in s.arrs.m ==> FilterOf(s, sel).value.arrs.m[n] == PyLib.Take(s.arrs.m[n], Matching(s, sel))
  {
    if sel != [] && Tables.FirstAbsent(Names(sel), s.arrs.m).None? {
      assert sel[0].0 in s.arrs.m by {
        assert Names(sel)[0] == sel[0].0;
      }
    }
  }

  /**
   * `find(**sel)`: the one row where every selection holds; `LookupError`
   * when none or several do. Without selections there is no mask to search.
   */
  function FindIn(s: State, sel: seq<(string, Value)>): (r: Result<nat, Error>)
    requires s.Valid()
  {
    match FilterMaskOf(s, sel)
    case Err(e) => Err(e)
    case Ok(None) => Err(AttributeError("nonzero"))
    case Ok(Some(m)) =>
      var ps := Tables.MaskPositions(m);
      if |ps| == 0 then Err(LookupError("no item"))
      else if |ps| == 1 then Ok(ps[0])
      else Err(LookupError("multiple items"))
  }

  /** `find` gives row `i` exactly when `i` is the only row where every selection holds. */
  lemma FindUnique(s: State, sel: seq<(string, Value)>, i: nat)
    requires s.Valid() && sel != [] && Tables.FirstAbsent(Names(sel), s.arrs.m).None?
    ensures FindIn(s, sel) == Ok(i) <==>
      i < s.NumRows() && RowMatches(s.arrs.m, sel, i)
      && forall j :: 0 <= j < s.NumRows() && j != i ==> !RowMatches(s.arrs.m, sel, j)
  {
    var ps := Matching(s, sel);
    FindInMatching(s, sel);
    assert |ps| >= 2 ==> ps[0] < ps[1];
  }

  /** With every name present, `find` looks only at the matching rows: none, one, or several. */
  lemma FindInMatching(s: State, sel: seq<(string, Value)>)
    requires s.Valid() && sel != [] && Tables.FirstAbsent(Names(sel), s.arrs.m).None?
    ensures var ps := Matching(s, sel);
      FindIn(s, sel) == if |ps| == 0 then Err(LookupError("no item")) else if |ps| == 1 then Ok(ps[0])
        else Err(LookupError("multiple items"))
  {
    assert FilterMaskOf(s, sel) == Ok(Some(seq(s.NumRows(), i => RowMatches(s.arrs.m, sel, i))));
  }

  /** `find` reports "no item" exactly when no row matches, and "multiple items" when two do. */
  lemma FindMisses(s: State, sel: seq<(string, Value)>)
    requires s.Valid() && sel != [] && Tables.FirstAbsent(Names(sel), s.arrs.m).None?
    ensures FindIn(s, sel) == Err(LookupError("no item")) <==>
      forall j :: 0 <= j < s.NumRows() ==> !RowMatches(s.arrs.m, sel, j)
    ensures (exists j1, j2 :: 0 <= j1 < j2 < s.NumRows() && RowMatches(s.arrs.m, sel, j1) && RowMatches(s.arrs.m, sel, j2))
      ==> FindIn(s, sel) == Err(LookupError("multiple items"))
  {
    FindInMatching(s, sel);
    MatchingNone(s, sel);
    if exists j1, j2 :: 0 <= j1 < j2 < s.NumRows() && RowMatches(s.arrs.m, sel, j1) && RowMatches(s.arrs.m, sel, j2) {
      var j1, j2 :| 0 <= j1 < j2 < s.NumRows() && RowMatches(s.arrs.m, sel, j1) && RowMatches(s.arrs.m, sel, j2);
      MatchingTwo(s, sel, j1, j2);
    }
  }

  /** No row is matched exactly when no row matches. */
  lemma MatchingNone(s: State, sel: seq<(string, Value)>)
    requires s.Valid()
    ensures |Matching(s, sel)| == 0 <==> forall j :: 0 <= j < s.NumRows() ==> !RowMatches(s.arrs.m, sel, j)
  {
    var ps := Matching(s, sel);
    if |ps| > 0 {
      assert ps[0] < s.NumRows() && RowMatches(s.arrs.m, sel, ps[0]);
    }
  }

  /** Two matching rows make at least two matched positions. */
  lemma MatchingTwo(s: State, sel: seq<(string, Value)>, j1: nat, j2: nat)
    requires s.Valid() && j1 < j2 < s.NumRows() && RowMatches(s.arrs.m, sel, j1) && RowMatches(s.arrs.m, sel, j2)
    ensures |Matching(s, sel)| >= 2
  {
    var ps := Matching(s, sel);
    assert j1 in ps && j2 in ps;
  }

  // ---- The table object ------------------------------------------------------------

  /** A table: its row count and its arrays, both changed in place by `add` and `remove`. */
  class Table {
    var length: Option<nat>
    var arrs: ODict<seq<Value>>

    /** The two fields as a value. */
    function Snapshot(): (s: State)
      reads this
      ensures s.length == length && s.arrs == arrs
    {
      State(length, arrs)
    }

    ghost predicate Valid()
      reads this
    {
      Snapshot().Valid()
    }

    constructor Of(s: State)
      requires s.Valid()
      ensures Snapshot() == s && Valid()
    {
      length := s.length;
      arrs := s.arrs;
    }

    /** `num_rows`: 0 for a table whose row count was never set. */
    function NumRows(): (k: nat)
      reads this
      ensures length.None? ==> k == 0
      ensures length.Some? ==> k == length.value
      ensures Valid() ==> forall n :: n in arrs.m ==> |arrs.m[n]| == k
    {
      Snapshot().NumRows()
    }

    /** `num_cols`: the number of arrays. */
    function NumCols(): (k: nat)
      reads this
      ensures Valid() ==> (k == 0 <==> forall n :: n !in arrs.m)
    {
      assert Valid() && arrs.names != [] ==> arrs.names[0] in arrs.m;
      |arrs.names|
    }

    /** `names`: the array names in insertion order. */
    function ColumnNames(): (ns: seq<string>)
      reads this
      ensures Valid() ==> (forall n :: n in ns <==> n in arrs.m) && forall i, j :: 0 <= i < j < |ns| ==> ns[i] != ns[j]
    {
      arrs.names
    }

    /** `add(...)`: see `AddState`; a rejected `add` leaves the table as it was. */
    method Add(d: ODict<Obj>) returns (r: Result<(), Error>)
      requires Valid() && d.Valid()
      modifies this
      ensures Valid()
      ensures r.Ok? <==> AddState(old(Snapshot()), d).Ok?
      ensures r.Ok? ==> Snapshot() == AddState(old(Snapshot()), d).value
      ensures r.Err? ==> r.error == AddState(old(Snapshot()), d).error && Snapshot() == old(Snapshot())
    {
      var next := AddState(Snapshot(), d);
      if next.Err? {
        return Err(next.error);
      }
      length := next.value.length;
      arrs := next.value.arrs;
      r := Ok(());
    }

    /** `remove(name)`: see `RemoveState`. */
    method Remove(name: string) returns (r: Result<(), Error>)
      requires Valid()
      modifies this
      ensures Valid()
      ensures r.Ok? <==> RemoveState(old(Snapshot()), name).Ok?
      ensures r.Ok? ==> Snapshot() == RemoveState(old(Snapshot()), name).value
      ensures r.Err? ==> r.error == ValueError(name) && Snapshot() == old(Snapshot())
    {
      if name !in arrs.m {
        return Err(ValueError(name));
      }
      arrs := arrs.Remove(name);
      if arrs.names == [] {
        length := Some(0);
      }
      r := Ok(());
    }

    /** `mask(mask)`: a new table of the rows where the mask is true. */
    method Mask(mask: seq<bool>) returns (r: Result<Table, Error>)
      requires Valid()
      ensures r.Ok? <==> MaskState(Snapshot(), mask).Ok?
      ensures r.Err? ==> r.error == ValueError("wrong shape")
      ensures r.Ok? ==> fresh(r.value) && r.value.Valid() && r.value.Snapshot() == MaskState(Snapshot(), mask).value
    {
      var s := MaskState(Snapshot(), mask);
      if s.Err? {
        return Err(s.error);
      }
      var t := new Table.Of(s.value);
      r := Ok(t);
    }

    /**
     * `filter_mask(**sel)`: the first selection's comparison, then each
     * later selection clears, in place, the rows it does not match.
     */
    method FilterMask(sel: seq<(string, Value)>) returns (r: Result<Option<seq<bool>>, Error>)
      requires Valid()
      ensures r == FilterMaskOf(Snapshot(), sel)
      ensures r.Ok? && r.value.Some? ==>
        |r.value.value| == NumRows() && forall i :: 0 <= i < NumRows() ==> (r.value.value[i] <==> RowMatches(arrs.m, sel, i))
    {
      if sel == [] {
        return Ok(None);
      }
      var mask := new bool[0];
      for k := 0 to |sel|
        invariant fresh(mask)
        invariant forall j :: 0 <= j < k ==> sel[j].0 in arrs.m
        invariant k > 0 ==> mask.Length == NumRows()
        invariant k > 0 ==> forall i :: 0 <= i < mask.Length ==> (mask[i] <==> RowMatches(arrs.m, sel[..k], i))
      {
        var (name, value) := sel[k];
        if name !in arrs.m {
          FirstUnknownSelection(arrs.m, sel, k);
          return Err(KeyError([Str(name)]));
        }
        var a := arrs.m[name];
        ghost var before := mask[..];
        if k == 0 {
          mask := new bool[|a|](i requires 0 <= i < |a| => a[i] == value);
        } else {
          NarrowMask(mask, a, value);
        }
        NarrowStep(arrs.m, sel, k, before, mask[..]);
      }
      assert sel[..|sel|] == sel;
      MaskIsFilterMaskOf(Snapshot(), sel, mask[..]);
      r := Ok(Some(mask[..]));
    }

    /** `filter(**sel)`: the rows where every selection holds, as a new table. */
    method Filter(sel: seq<(string, Value)>) returns (r: Result<Table, Error>)
      requires Valid()
      ensures r.Ok? <==> FilterOf(Snapshot(), sel).Ok?
      ensures r.Err? ==> r.error == FilterOf(Snapshot(), sel).error
      ensures r.Ok? ==> fresh(r.value) && r.value.Snapshot() == FilterOf(Snapshot(), sel).value
    {
      var m := FilterMask(sel);
      if m.Err? {
        return Err(m.error);
      }
      if m.value.None? {
        return Err(ValueError("wrong shape"));
      }
      r := Mask(m.value.value);
    }

    /** `find(**sel)`: the position of the only row where every selection holds. */
    method Find(sel: seq<(string, Value)>) returns (r: Result<nat, Error>)
      requires Valid()
      ensures r == FindIn(Snapshot(), sel)
    {
      var m := FilterMask(sel);
      if m.Err? {
        return Err(m.error);
      }
      if m.value.None? {
        return Err(AttributeError("nonzero"));
      }
      var idx := Tables.MaskPositions(m.value.value);
      if |idx| == 0 {
        r := Err(LookupError("no item"));
      } else if |idx| == 1 {
        r := Ok(idx[0]);
      } else {
        r := Err(LookupError("multiple items"));
      }
    }
  }

  /** `Table(...)`: see `InitState`. */
  method NewTable(d: ODict<Obj>) returns (r: Result<Table, Error>)
    requires d.Valid()
    ensures r.Ok? <==> InitState(d).Ok?
    ensures r.Err? ==> r.error == InitState(d).error
    ensures r.Ok? ==> fresh(r.value) && r.value.Valid() && r.value.Snapshot() == InitState(d).value
  {
    var s := InitState(d);
    if s.Err? {
      return Err(s.error);
    }
    var t := new Table.Of(s.value);
    r := Ok(t);
  }

  /**
   * `from_recs(recs)`: the first record's names, each with its values across
   * the records; records that share the first's keys give one row each; a
   * later record's key the first lacks raises `KeyError`.
   */
  method FromRecs(recs: seq<ODict<Value>>) returns (r: Result<Table, Error>)
    requires forall i :: 0 <= i < |recs| ==> recs[i].Valid()
    ensures recs == [] ==> r == Err(StopIteration)
    ensures Build.FirstStranger(recs).Some? ==> r == Err(KeyError([Str(Build.FirstStranger(recs).value)]))
    ensures Build.SameKeys(recs) ==>
      var names := recs[0].names;
      && r.Ok? && fresh(r.value) && r.value.Valid() && r.value.arrs.names == names
      && r.value.NumRows() == (if names == [] then 0 else |recs|)
      && forall j, i :: 0 <= j < |names| && 0 <= i < |recs| ==>
           names[j] in recs[i].m && r.value.arrs.m[names[j]][i] == recs[i].m[names[j]]
  {
    var same := Build.SameKeys(recs);
    if same {
      Build.SameKeysNoStranger(recs);
    }
    var cols := Build.RecordColumns(recs);
    if cols.Err? {
      return Err(cols.error);
    }
    var c := cols.value;
    if same {
      RecsState(recs, c);
    }
    r := NewTable(Vectors(c));
    if same {
      assert r.value.arrs == c;
    }
  }

  /** The columns collected from records sharing their keys make a table with one row per record. */
  lemma RecsState(recs: seq<ODict<Value>>, c: ODict<seq<Value>>)
    requires Build.SameKeys(recs) && forall i :: 0 <= i < |recs| ==> recs[i].Valid()
    requires c.Valid() && c.names == recs[0].names && forall n :: n in c.m ==> c.m[n] == Build.Collected(recs, n)
    ensures InitState(Vectors(c)) == Ok(State(if c.names == [] then None else Some(|recs|), c))
    ensures forall j, i :: 0 <= j < |c.names| && 0 <= i < |recs| ==>
      c.names[j] in recs[i].m && c.m[c.names[j]][i] == recs[i].m[c.names[j]]
  {
    forall n | n in c.m ensures |c.m[n]| == |recs| && forall i :: 0 <= i < |recs| ==> n in recs[i].m && c.m[n][i] == recs[i].m[n] {
      forall i | 0 <= i < |recs| ensures n in recs[i].m {
        Build.SameKeysHas(recs, n, i);
      }
      Build.CollectedTransposes(recs, n);
    }
    InitVectors(c, |recs|);
    NamesTranspose(recs, c);
  }

  lemma NamesTranspose(recs: seq<ODict<Value>>, c: ODict<seq<Value>>)
    requires c.Valid()
    requires forall n :: n in c.m ==> |c.m[n]| == |recs| && forall i :: 0 <= i < |recs| ==> n in recs[i].m && c.m[n][i] == recs[i].m[n]
    ensures forall j, i :: 0 <= j < |c.names| && 0 <= i < |recs| ==>
      c.names[j] in recs[i].m && c.m[c.names[j]][i] == recs[i].m[c.names[j]]
  {
    forall j, i | 0 <= j < |c.names| && 0 <= i < |recs|
      ensures c.names[j] in recs[i].m && c.m[c.names[j]][i] == recs[i].m[c.names[j]]
    {
      assert c.names[j] in c.m;
    }
  }
}
