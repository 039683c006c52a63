/**
 * Functions over `ntab` tables: a new table of some of the arrays; renaming
 * arrays in place; finding, and removing, the columns that hold one value in
 * every row.
 */
module Fn {
  import opened Wrappers
  import opened Values
  import opened Errors
  import opened ODict
  import Columns
  import Containers
  import opened NTab

  // ---- select_arrs -------------------------------------------------------------------

  /** The pairs `(n, tab.arrs[n])` for the names `ns`, in that order. */
  function NamedArrays(s: State, ns: seq<string>): (ps: seq<(string, seq<Value>)>)
    requires s.Valid() && forall n :: n in ns ==> n in s.arrs.m
    ensures |ps| == |ns| && forall i :: 0 <= i < |ps| ==> ps[i] == (ns[i], s.arrs.m[ns[i]])
  {
    seq(|ns|, i requires 0 <= i < |ns| => (ns[i], s.arrs.m[ns[i]]))
  }

  /**
   * `select_arrs(tab, names)`: a new table built from the arrays named by
   * `select_ordered(tab.names, names)`, in that order.
   */
  function SelectArrs(s: State, sel: Containers.Selector): (r: Result<State, Error>)
    requires s.Valid()
  {
    match Containers.SelectOrdered(s.arrs.names, sel)
    case Err(e) => Err(e)
    case Ok(ns) => InitState(Vectors(FromPairs(NamedArrays(s, ns))))
  }

  /**
   * `select_arrs` fails only as `select_ordered` does; otherwise the new
   * table holds exactly the selected arrays, unchanged, with the table's row
   * count (none when nothing is selected), and in the selected order when
   * the selection names each array once.
   */
  lemma SelectArrsSelects(s: State, sel: Containers.Selector)
    requires s.Valid()
    ensures var ns := Containers.SelectOrdered(s.arrs.names, sel);
      ns.Err? ==> SelectArrs(s, sel) == Err(ns.error)
    ensures var ns := Containers.SelectOrdered(s.arrs.names, sel);
      ns.Ok? ==>
        var r := SelectArrs(s, sel);
        && r.Ok? && r.value.Valid()
        && (forall n :: n in r.value.arrs.m <==> n in ns.value)
        && (forall n :: n in r.value.arrs.m ==> r.value.arrs.m[n] == s.arrs.m[n])
        && r.value.NumRows() == (if ns.value == [] then 0 else s.NumRows())
        && ((forall i, j :: 0 <= i < j < |ns.value| ==> ns.value[i] != ns.value[j]) ==> r.value.arrs.names == ns.value)
  {
    var ns := Containers.SelectOrdered(s.arrs.names, sel);
    if ns.Ok? {
      NamedArraysDict(s, ns.value);
      InitVectors(FromPairs(NamedArrays(s, ns.value)), s.NumRows());
    }
  }

  /** The dict of the named arrays: exactly those names, each with its array, in order when distinct. */
  lemma NamedArraysDict(s: State, ns: seq<string>)
    requires s.Valid() && forall n :: n in ns ==> n in s.arrs.m
    ensures var arrs := FromPairs(NamedArrays(s, ns));
      && (forall n :: n in arrs.m <==> n in ns)
      && (forall n :: n in arrs.m ==> arrs.m[n] == s.arrs.m[n] && |arrs.m[n]| == s.NumRows())
      && (arrs.names == [] <==> ns == [])
      && ((forall i, j :: 0 <= i < j < |ns| ==> ns[i] != ns[j]) ==> arrs.names == ns)
  {
    NamedArraysEntries(s, ns);
    NamedArraysEmpty(s, ns);
    if forall i, j :: 0 <= i < j < |ns| ==> ns[i] != ns[j] {
      NamedArraysInOrder(s, ns);
    }
  }

  /** The dict holds exactly the named arrays. */
  lemma NamedArraysEntries(s: State, ns: seq<string>)
    requires s.Valid() && forall n :: n in ns ==> n in s.arrs.m
    ensures var arrs := FromPairs(NamedArrays(s, ns));
      && (forall n :: n in arrs.m <==> n in ns)
      && (forall n :: n in arrs.m ==> arrs.m[n] == s.arrs.m[n] && |arrs.m[n]| == s.NumRows())
  {
    var ps := NamedArrays(s, ns);
    assert Names(ps) == ns;
    UpdateFrom(Empty(), ps, s.arrs.m);
  }

  /** The dict is empty just when no names are given. */
  lemma NamedArraysEmpty(s: State, ns: seq<string>)
    requires s.Valid() && forall n :: n in ns ==> n in s.arrs.m
    ensures FromPairs(NamedArrays(s, ns)).names == [] <==> ns == []
  {
    var arrs := FromPairs(NamedArrays(s, ns));
    assert Names(NamedArrays(s, ns)) == ns;
    if ns != [] {
      assert ns[0] in arrs.m;
    }
    if arrs.names != [] {
      assert arrs.names[0] in arrs.m;
    }
  }

  /** Distinct names keep their order in the dict. */
  lemma NamedArraysInOrder(s: State, ns: seq<string>)
    requires s.Valid() && forall n :: n in ns ==> n in s.arrs.m
    requires forall i, j :: 0 <= i < j < |ns| ==> ns[i] != ns[j]
    ensures FromPairs(NamedArrays(s, ns)).names == ns
  {
    var ps := NamedArrays(s, ns);
    assert Names(ps) == ns;
    FromDistinctPairs(ps);
  }

  // ---- get_const ---------------------------------------------------------------------

  /** `(arr == v).all()`: every entry of `a` is `v`. */
  predicate AllEqual(a: seq<Value>, v: Value)
  {
    forall i :: 0 <= i < |a| ==> a[i] == v
  }

  /** `a` has entries, all equal to the first. */
  predicate IsConst(a: seq<Value>)
  {
    a != [] && AllEqual(a, a[0])
  }

  /** The arrays named in `ns` whose entries all equal their first, each with that value. */
  function ConstOf(arrs: map<string, seq<Value>>, ns: seq<string>): (c: ODict<Value>)
    ensures c.Valid()
    ensures forall n :: n in c.m <==> n in ns && n in arrs && IsConst(arrs[n])
    ensures forall n :: n in c.m ==> n in arrs && arrs[n] != [] && c.m[n] == arrs[n][0]
    decreases |ns|
  {
    if ns == [] then Empty()
    else
      var n := ns[|ns| - 1];
      var c := ConstOf(arrs, ns[..|ns| - 1]);
      assert ns == ns[..|ns| - 1] + [n];
      if n in arrs && IsConst(arrs[n]) then c.Set(n, arrs[n][0]) else c
  }

  /**
   * What `get_const(tab)` returns: nothing for a table without rows;
   * otherwise each array whose entries all equal its first, mapped to that value.
   */
  function ConstCols(s: State): (c: ODict<Value>)
    requires s.Valid()
    ensures c.Valid()
    ensures forall n :: n in c.m <==>
      s.NumRows() > 0 && n in s.arrs.m && forall i :: 0 <= i < s.NumRows() ==> s.arrs.m[n][i] == s.arrs.m[n][0]
    ensures forall n :: n in c.m ==> s.NumRows() > 0 && c.m[n] == s.arrs.m[n][0]
  {
    if s.NumRows() == 0 then Empty() else ConstOf(s.arrs.m, s.arrs.names)
  }

  /** With constant arrays only, in distinct names, every name is kept, in order. */
  lemma {:induction false} ConstOfAll(arrs: map<string, seq<Value>>, ns: seq<string>)
    requires forall i :: 0 <= i < |ns| ==> ns[i] in arrs && IsConst(arrs[ns[i]])
    requires forall i, j :: 0 <= i < j < |ns| ==> ns[i] != ns[j]
    ensures ConstOf(arrs, ns).names == ns
    decreases |ns|
  {
    if ns != [] {
      var n := ns[|ns| - 1];
      var p := ns[..|ns| - 1];
      assert ns == p + [n];
      assert forall i :: 0 <= i < |p| ==> p[i] == ns[i];
      ConstOfAll(arrs, p);
      ConstOfSnoc(arrs, p, n);
      assert n in arrs && IsConst(arrs[n]);
      assert n !in p by {
        forall j | 0 <= j < |p| ensures p[j] != n {
          assert p[j] == ns[j];
        }
      }
    }
  }

  /** One more name: its array is added when constant. */
  lemma ConstOfSnoc(arrs: map<string, seq<Value>>, p: seq<string>, n: string)
    ensures ConstOf(arrs, p + [n]) ==
      if n in arrs && IsConst(arrs[n]) then ConstOf(arrs, p).Set(n, arrs[n][0]) else ConstOf(arrs, p)
  {
    assert (p + [n])[..|p|] == p;
  }

  /** A table of one row has every column constant, in the table's order, each mapped to its only value. */
  lemma OneRowAllConst(s: State)
    requires s.Valid() && s.NumRows() == 1
    ensures ConstCols(s).names == s.arrs.names
    ensures forall n :: n in s.arrs.m ==> ConstCols(s).m[n] == s.arrs.m[n][0]
  {
    forall i | 0 <= i < |s.arrs.names| ensures IsConst(s.arrs.m[s.arrs.names[i]]) {
      assert |s.arrs.m[s.arrs.names[i]]| == 1;
    }
    ConstOfAll(s.arrs.m, s.arrs.names);
  }

  /**
   * `get_const(tab)`: for a table with rows, each array in turn is compared
   * with its first entry, and kept with that value when they all agree.
   */
  method GetConst(tab: Table) returns (c: ODict<Value>)
    requires tab.Valid()
    ensures c == ConstCols(tab.Snapshot())
  {
    c := Empty();
    if tab.NumRows() == 0 {
      return;
    }
    var names := tab.arrs.names;
    for k := 0 to |names|
      invariant c == ConstOf(tab.arrs.m, names[..k])
    {
      var a := tab.arrs.m[names[k]];
      var v := a[0];
      ConstOfSnoc(tab.arrs.m, names[..k], names[k]);
      assert names[..k + 1] == names[..k] + [names[k]];
      if AllEqual(a, v) {
        c := c.Set(names[k], v);
      }
    }
    assert names[..|names|] == names;
  }

  // ---- rename ------------------------------------------------------------------------

  /**
   * One `tab.arrs[new] = tab.arrs.pop(old)` as written: `pop` reads the
   * array, a missing name raising `KeyError`, then `remove`s it, which sets
   * the row count to 0 when no column is left; the assignment is an `add`,
   * which then rejects an array of any other length, leaving the table
   * without the column.
   */
  function RenameOneAsWritten(s: State, newName: string, oldName: string): (r: (State, Result<(), Error>))
    requires s.Valid()
    ensures r.0.Valid()
    ensures oldName !in s.arrs.m ==> r == (s, Err(KeyError([Str(oldName)])))
    ensures r.1.Ok? ==> RenameOne(s, newName, oldName) == Ok(r.0)
    ensures oldName in s.arrs.m && r.1.Err? ==> r.0.arrs.names == [] && r.1.error == ValueError("wrong length")
  {
    if oldName !in s.arrs.m then (s, Err(KeyError([Str(oldName)])))
    else
      var t := RemoveState(s, oldName).value;
      match AddState(t, One(newName, Array(Columns.Vector(s.arrs.m[oldName]))))
      case Err(e) => (t, Err(e))
      case Ok(u) => RenameAddAgrees(s, newName, oldName); (u, Ok(()))
  }

  /** When the `add` of a rename as written succeeds, it leaves what the intended rename does. */
  lemma RenameAddAgrees(s: State, newName: string, oldName: string)
    requires s.Valid() && oldName in s.arrs.m
    requires AddState(RemoveState(s, oldName).value, One(newName, Array(Columns.Vector(s.arrs.m[oldName])))).Ok?
    ensures AddState(RemoveState(s, oldName).value, One(newName, Array(Columns.Vector(s.arrs.m[oldName])))).value
      == RenameOne(s, newName, oldName).value
  {
    if RemoveState(s, oldName).value.arrs.names != [] {
      AddOneKept(RemoveState(s, oldName).value, newName, s.arrs.m[oldName]);
    } else {
      RenameLastAgrees(s, newName, oldName);
    }
  }

  /** The same, when `old` is the only column: the add then starts from an empty table. */
  lemma RenameLastAgrees(s: State, newName: string, oldName: string)
    requires s.Valid() && oldName in s.arrs.m && RemoveState(s, oldName).value.arrs.names == []
    requires AddState(RemoveState(s, oldName).value, One(newName, Array(Columns.Vector(s.arrs.m[oldName])))).Ok?
    ensures AddState(RemoveState(s, oldName).value, One(newName, Array(Columns.Vector(s.arrs.m[oldName])))).value
      == RenameOne(s, newName, oldName).value
  {
    var t := RemoveState(s, oldName).value;
    var a := s.arrs.m[oldName];
    assert s.arrs.names == [oldName] by {
      assert forall k :: k in s.arrs.names ==> k == oldName;
    }
    if a != [] {
      RemoveLastThenAdd(s, oldName, newName, a);
      assert false;
    }
    assert s.length == Some(0);
    assert t == State(Some(0), Empty()) by {
      assert t.arrs.names == [] && t.arrs.m == map[];
    }
    assert s.arrs.Remove(oldName) == Empty();
    AddOneToEmpty(newName);
  }

  /** Adding an empty array to a table with no columns and no rows. */
  lemma AddOneToEmpty(n: string)
    ensures AddState(State(Some(0), Empty()), One(n, Array(Columns.Vector([]))))
      == Ok(State(Some(0), Empty<seq<Value>>().Set(n, [])))
  {
    EmptyArrayArgs(n);
  }

  /** The steps of `add` for one empty array on a table with no columns. */
  lemma EmptyArrayArgs(n: string)
    ensures var arrs := ODict([n], map[n := []]);
      && Ensured(One(n, Array(Columns.Vector([]))), Some(0)) == Ok(arrs)
      && arrs.names != [] && AddLength(State(Some(0), Empty()), arrs) == 0
      && FirstWrongLength(arrs.Values(), 0).None?
      && Empty<seq<Value>>().Update(Pairs(arrs)) == Empty<seq<Value>>().Set(n, [])
  {
    var e: seq<Value> := [];
    EnsuredOne(n, e);
    SinglePair(n, e);
    assert ODict([n], map[n := e]).Values() == [e];
    assert Pairs(ODict([n], map[n := e])) == [(n, e)];
  }

  /**
   * One rename as evidently intended: the array leaves `old` and is assigned
   * to `new` (in place when `new` is another existing name, at the end
   * otherwise); the row count stays.
   */
  function RenameOne(s: State, newName: string, oldName: string): (r: Result<State, Error>)
    requires s.Valid()
    ensures r.Err? <==> oldName !in s.arrs.m
    ensures r.Err? ==> r.error == KeyError([Str(oldName)])
    ensures r.Ok? ==>
      && r.value.Valid() && r.value.length == s.length
      && (forall n :: n in r.value.arrs.m <==> n == newName || (n in s.arrs.m && n != oldName))
      && r.value.arrs.m[newName] == s.arrs.m[oldName]
      && (forall n :: n in s.arrs.m && n != oldName && n != newName ==> r.value.arrs.m[n] == s.arrs.m[n])
  {
    if oldName !in s.arrs.m then Err(KeyError([Str(oldName)]))
    else Ok(State(s.length, s.arrs.Remove(oldName).Set(newName, s.arrs.m[oldName])))
  }

  /** A one-dimensional array of the table's row count passes `_ensure_array` unchanged. */
  lemma EnsuredOne(n: string, a: seq<Value>)
    ensures Ensured(One(n, Array(Columns.Vector(a))), Some(|a|)) == Ok(ODict([n], map[n := a]))
  {
    var d := One(n, Array(Columns.Vector(a)));
    assert d.Values() == [Array(Columns.Vector(a))];
    var e := Ensured(d, Some(|a|)).value;
    assert e.m == map[n := a];
  }

  /** While another column remains, the rename as written does what was intended. */
  lemma RenameOneAsWrittenAgrees(s: State, newName: string, oldName: string)
    requires s.Valid() && oldName in s.arrs.m && |s.arrs.names| > 1
    ensures RenameOneAsWritten(s, newName, oldName) == (RenameOne(s, newName, oldName).value, Ok(()))
  {
    var a := s.arrs.m[oldName];
    var t := RemoveState(s, oldName).value;
    assert t.arrs.names != [] && t.length == s.length;
    AddOneKept(t, newName, a);
  }

  /** Adding one array of the row count to a table with columns assigns it, and the row count stays. */
  lemma AddOneKept(t: State, n: string, a: seq<Value>)
    requires t.Valid() && t.arrs.names != [] && |a| == t.NumRows()
    ensures AddState(t, One(n, Array(Columns.Vector(a)))) == Ok(State(t.length, t.arrs.Set(n, a)))
  {
    EnsuredOne(n, a);
    assert t.length == Some(|a|);
    var arrs := ODict([n], map[n := a]);
    assert AddLength(t, arrs) == |a|;
    assert arrs.Values() == [a];
    assert FirstWrongLength(arrs.Values(), |a|).None?;
    assert Pairs(arrs) == [(n, a)];
    assert t.arrs.Update([(n, a)]) == t.arrs.Set(n, a);
  }

  /**
   * Renaming the only column of a table with rows, as written, raises
   * `ValueError` and leaves a table with no columns and 0 rows; as intended
   * the table keeps the array, under the new name, and its row count.
   */
  lemma RenameOnlyColumn(s: State, name: string, newName: string)
    requires s.Valid() && s.arrs.names == [name] && s.NumRows() > 0
    ensures RenameOneAsWritten(s, newName, name) == (State(Some(0), Empty()), Err(ValueError("wrong length")))
    ensures RenameOne(s, newName, name) == Ok(State(s.length, ODict([newName], map[newName := s.arrs.m[name]])))
  {
    var a := s.arrs.m[name];
    var e := s.arrs.Remove(name);
    assert e == Empty() by {
      assert e.names == [] && e.m == map[];
    }
    RemoveLastThenAdd(s, name, newName, a);
    assert RenameOneAsWritten(s, newName, name) == (RemoveState(s, name).value, Err(ValueError("wrong length")));
    assert e.Set(newName, a) == ODict([newName], map[newName := a]);
  }

  /**
   * `rename(tab, **names)` on the table's state: the `(new, old)` pairs of
   * the argument dict in order; the first missing `old` raises `KeyError`,
   * with the renames before it done.
   */
  function RenameAll(s: State, renames: seq<(string, string)>): (r: (State, Result<(), Error>))
    requires s.Valid()
    ensures r.0.Valid() && r.0.length == s.length
    decreases |renames|
  {
    if renames == [] then (s, Ok(()))
    else match RenameOne(s, renames[0].0, renames[0].1)
      case Err(e) => (s, Err(e))
      case Ok(t) => RenameAll(t, renames[1..])
  }

  /** `rename` fails only with the `KeyError` of one of the old names. */
  lemma {:induction false} RenameAllKeyError(s: State, renames: seq<(string, string)>)
    requires s.Valid()
    ensures RenameAll(s, renames).1.Err? ==>
      exists i :: 0 <= i < |renames| && RenameAll(s, renames).1.error == KeyError([Str(renames[i].1)])
    decreases |renames|
  {
    if renames != [] && RenameOne(s, renames[0].0, renames[0].1).Ok? {
      var t := RenameOne(s, renames[0].0, renames[0].1).value;
      RenameAllKeyError(t, renames[1..]);
      var r := RenameAll(t, renames[1..]);
      if r.1.Err? {
        var i :| 0 <= i < |renames| - 1 && r.1.error == KeyError([Str(renames[1..][i].1)]);
        assert renames[1..][i] == renames[i + 1];
      }
    }
  }

  /**
   * `rename(tab, ...)`: the pairs applied to the table in place, one after
   * another, stopping at the first missing name.
   */
  method Rename(tab: Table, renames: seq<(string, string)>) returns (r: Result<(), Error>)
    requires tab.Valid()
    modifies tab
    ensures tab.Valid()
    ensures (tab.Snapshot(), r) == RenameAll(old(tab.Snapshot()), renames)
  {
    ghost var want := RenameAll(tab.Snapshot(), renames);
    for k := 0 to |renames|
      invariant tab.Valid()
      invariant RenameAll(tab.Snapshot(), renames[k..]) == want
    {
      var (newName, oldName) := renames[k];
      var next := RenameOne(tab.Snapshot(), newName, oldName);
      assert renames[k..][1..] == renames[k + 1..];
      if next.Err? {
        return Err(next.error);
      }
      tab.arrs := next.value.arrs;
    }
    r := Ok(());
  }

  // ---- remove_const ------------------------------------------------------------------

  /**
   * `remove_const(tab)` as written: `tab.remove(*const)` passes every
   * constant name to `remove`, which takes exactly one, so any other number
   * of constant columns raises `TypeError` and removes nothing.
   */
  function RemoveConstAsWritten(s: State): (r: (State, Result<ODict<Value>, Error>))
    requires s.Valid()
    ensures r.1.Ok? <==> |ConstCols(s).names| == 1
    ensures r.1.Err? ==> r.0 == s
    ensures r.1.Ok? ==> r.1.value == ConstCols(s) && RemoveAll(s, ConstCols(s).names) == Ok(r.0)
  {
    var c := ConstCols(s);
    if |c.names| != 1 then (s, Err(TypeError("remove() takes exactly one name")))
    else (RemoveState(s, c.names[0]).value, Ok(c))
  }

  /** `remove(n)` for each name in turn; the first absent name raises its `ValueError`. */
  function RemoveAll(s: State, ns: seq<string>): (r: Result<State, Error>)
    requires s.Valid()
    ensures r.Ok? ==> r.value.Valid()
    decreases |ns|
  {
    if ns == [] then Ok(s)
    else match RemoveState(s, ns[0])
      case Err(e) => Err(e)
      case Ok(t) => RemoveAll(t, ns[1..])
  }

  /**
   * Removing distinct present names one by one drops exactly those columns,
   * keeps the others unchanged, and keeps the row count while a column is
   * left (0 once none is).
   */
  lemma {:induction false} RemoveAllDrops(s: State, ns: seq<string>)
    requires s.Valid() && forall i :: 0 <= i < |ns| ==> ns[i] in s.arrs.m
    requires forall i, j :: 0 <= i < j < |ns| ==> ns[i] != ns[j]
    ensures RemoveAll(s, ns).Ok?
    ensures var t := RemoveAll(s, ns).value;
      && (forall n :: n in t.arrs.m <==> n in s.arrs.m && n !in ns)
      && (forall n :: n in t.arrs.m ==> t.arrs.m[n] == s.arrs.m[n])
      && (t.arrs.names != [] ==> t.length == s.length)
      && (t.arrs.names == [] ==> t.NumRows() == 0 || ns == [])
    decreases |ns|
  {
    if ns != [] {
      var t := RemoveState(s, ns[0]).value;
      var rest := ns[1..];
      forall i | 0 <= i < |rest| ensures rest[i] in t.arrs.m {
        assert rest[i] == ns[i + 1] && ns[i + 1] != ns[0];
      }
      RemoveAllDrops(t, rest);
      assert forall n :: n in ns <==> n == ns[0] || n in rest;
      var u := RemoveAll(t, rest).value;
      if u.arrs.names != [] {
        assert u.arrs.names[0] in t.arrs.m;
      }
    }
  }

  /**
   * `remove_const(tab)` as evidently intended: every constant column is
   * removed; what `get_const` returned is returned.
   */
  method RemoveConst(tab: Table) returns (c: ODict<Value>)
    requires tab.Valid()
    modifies tab
    ensures tab.Valid()
    ensures c == ConstCols(old(tab.Snapshot()))
    ensures RemoveAll(old(tab.Snapshot()), c.names) == Ok(tab.Snapshot())
  {
    c := GetConst(tab);
    ghost var want := RemoveAll(tab.Snapshot(), c.names);
    for k := 0 to |c.names|
      invariant tab.Valid()
      invariant forall i :: k <= i < |c.names| ==> c.names[i] in tab.arrs.m
      invariant RemoveAll(tab.Snapshot(), c.names[k..]) == want
    {
      assert c.names[k..][1..] == c.names[k + 1..];
      var _ := tab.Remove(c.names[k]);
    }
  }

  /**
   * After `remove_const` the table holds exactly the columns that are not
   * constant, unchanged; a table without rows keeps all of them.
   */
  lemma RemoveConstLeavesVaried(s: State)
    requires s.Valid()
    ensures RemoveAll(s, ConstCols(s).names).Ok?
    ensures var t := RemoveAll(s, ConstCols(s).names).value;
      && (forall n :: n in t.arrs.m <==>
            (n in s.arrs.m && !(s.NumRows() > 0 && forall i :: 0 <= i < s.NumRows() ==> s.arrs.m[n][i] == s.arrs.m[n][0])))
      && (forall n :: n in t.arrs.m ==> t.arrs.m[n] == s.arrs.m[n])
  {
    var c := ConstCols(s);
    forall i | 0 <= i < |c.names| ensures c.names[i] in s.arrs.m {
      assert c.names[i] in c.m;
    }
    RemoveAllDrops(s, c.names);
  }

  /**
   * On a table without rows (test_fn.py's empty table), `remove_const` as
   * written raises `TypeError`, where `{}` and an unchanged table were meant.
   */
  lemma RemoveConstNoRows(s: State)
    requires s.Valid() && s.NumRows() == 0
    ensures RemoveConstAsWritten(s) == (s, Err(TypeError("remove() takes exactly one name")))
    ensures ConstCols(s) == Empty() && RemoveAll(s, ConstCols(s).names) == Ok(s)
  {
  }
}
