/**
 * Insertion-ordered dictionaries from names, as Python's `dict` and
 * `OrderedDict` behave: assigning an existing name replaces its value in
 * place, assigning a new name appends it, deleting a name drops it from the order.
 */
module ODict {
  import opened Wrappers

  datatype ODict<V> = ODict(names: seq<string>, m: map<string, V>)
  {
    /** The names are distinct and are exactly the keys of the map. */
    ghost predicate Valid()
    {
      && (forall i, j :: 0 <= i < j < |names| ==> names[i] != names[j])
      && (forall k :: k in m <==> k in names)
    }

    /** The values in name order. */
    function Values(): (vs: seq<V>)
      requires Valid()
      ensures |vs| == |names|
      ensures forall i :: 0 <= i < |names| ==> vs[i] == m[names[i]]
    {
      seq(|names|, i requires 0 <= i < |names| => m[names[i]])
    }

    /** `d[k] = v`. */
    function Set(k: string, v: V): (d: ODict<V>)
      requires Valid()
      ensures d.Valid() && d.m == m[k := v]
      ensures k in names ==> d.names == names
      ensures k !in names ==> d.names == names + [k]
    {
      if k in names then ODict(names, m[k := v]) else ODict(names + [k], m[k := v])
    }

    /** `del d[k]`. */
    function Remove(k: string): (d: ODict<V>)
      requires Valid() && k in m
      ensures d.Valid() && d.m == m - {k}
      ensures forall x :: x in d.names <==> x in names && x != k
      ensures |d.names| == |names| - 1
    {
      ODict(Without(names, k), m - {k})
    }

    /** `del d[k]` keeps the other names in their order: only the place of `k` closes up. */
    lemma RemoveKeepsOrder(k: string, i: nat)
      requires Valid() && i < |names| && names[i] == k
      ensures Remove(k).names == names[..i] + names[i + 1..]
    {
      WithoutKeepsOrder(names, k, i);
    }

    /** `d.update(pairs)`: the pairs assigned one after another. */
    function Update(pairs: seq<(string, V)>): (d: ODict<V>)
      requires Valid()
      ensures d.Valid()
      ensures forall x :: x in d.m <==> x in m || x in Names(pairs)
      ensures |names| <= |d.names| && d.names[..|names|] == names
      decreases |pairs|
    {
      if pairs == [] then this
      else
        var d1 := Set(pairs[0].0, pairs[0].1);
        var d := d1.Update(pairs[1..]);
        NamesCons(pairs);
        PrefixOfPrefix(d.names, d1.names, names);
        d
    }
  }

  /** A prefix of a prefix is a prefix. */
  lemma PrefixOfPrefix(a: seq<string>, b: seq<string>, c: seq<string>)
    requires |c| <= |b| <= |a| && a[..|b|] == b && b[..|c|] == c
    ensures a[..|c|] == c
  {
    assert a[..|c|] == a[..|b|][..|c|];
  }

  function Empty<V>(): (d: ODict<V>)
    ensures d.Valid() && d.names == [] && d.m == map[]
  {
    ODict([], map[])
  }

  /** `dict(pairs)`: later pairs overwrite earlier ones with the same name, keeping its first position. */
  function FromPairs<V>(pairs: seq<(string, V)>): (d: ODict<V>)
    ensures d.Valid()
    ensures forall x :: x in d.m <==> x in Names(pairs)
  {
    Empty<V>().Update(pairs)
  }

  function Names<V>(pairs: seq<(string, V)>): (ns: seq<string>)
    ensures |ns| == |pairs| && forall i :: 0 <= i < |pairs| ==> ns[i] == pairs[i].0
  {
    seq(|pairs|, i requires 0 <= i < |pairs| => pairs[i].0)
  }

  predicate DistinctNames<V>(pairs: seq<(string, V)>)
  {
    forall i, j :: 0 <= i < j < |pairs| ==> pairs[i].0 != pairs[j].0
  }

  /** With distinct names, `dict(pairs)` keeps the pairs' order and values exactly. */
  lemma {:induction false} FromDistinctPairs<V>(pairs: seq<(string, V)>)
    requires DistinctNames(pairs)
    ensures FromPairs(pairs).names == Names(pairs)
    ensures forall i :: 0 <= i < |pairs| ==> FromPairs(pairs).m[pairs[i].0] == pairs[i].1
  {
    UpdateDistinctNames(Empty(), pairs);
    forall i | 0 <= i < |pairs| ensures FromPairs(pairs).m[pairs[i].0] == pairs[i].1 {
      UpdateDistinctValues(Empty(), pairs, i);
    }
  }

  /** When every pair and every existing entry agrees with the map `g`, so does the result. */
  lemma {:induction false} UpdateFrom<V>(d: ODict<V>, pairs: seq<(string, V)>, g: map<string, V>)
    requires d.Valid()
    requires forall x :: x in d.m ==> x in g && d.m[x] == g[x]
    requires forall i :: 0 <= i < |pairs| ==> pairs[i].0 in g && pairs[i].1 == g[pairs[i].0]
    ensures forall x :: x in d.Update(pairs).m ==> x in g && d.Update(pairs).m[x] == g[x]
    decreases |pairs|
  {
    if pairs != [] {
      var d1 := d.Set(pairs[0].0, pairs[0].1);
      assert forall i :: 0 <= i < |pairs| - 1 ==> pairs[1..][i] == pairs[i + 1];
      UpdateFrom(d1, pairs[1..], g);
    }
  }

  /** When every existing value and every pair's value has property `P`, so does every value of the result. */
  lemma {:induction false} UpdateKeepsAll<V>(d: ODict<V>, pairs: seq<(string, V)>, P: V -> bool)
    requires d.Valid()
    requires forall x :: x in d.m ==> P(d.m[x])
    requires forall i :: 0 <= i < |pairs| ==> P(pairs[i].1)
    ensures forall x :: x in d.Update(pairs).m ==> P(d.Update(pairs).m[x])
    decreases |pairs|
  {
    if pairs != [] {
      var d1 := d.Set(pairs[0].0, pairs[0].1);
      assert forall i :: 0 <= i < |pairs| - 1 ==> pairs[1..][i] == pairs[i + 1];
      UpdateKeepsAll(d1, pairs[1..], P);
    }
  }

  /** Names not among the pairs keep their values. */
  lemma {:induction false} UpdateKeeps<V>(d: ODict<V>, pairs: seq<(string, V)>, x: string)
    requires d.Valid() && x in d.m && x !in Names(pairs)
    ensures d.Update(pairs).m[x] == d.m[x]
    decreases |pairs|
  {
    if pairs != [] {
      var d1 := d.Set(pairs[0].0, pairs[0].1);
      assert x != Names(pairs)[0];
      assert x !in Names(pairs[1..]) by {
        forall j | 0 <= j < |pairs| - 1 ensures Names(pairs[1..])[j] != x {
          assert Names(pairs[1..])[j] == Names(pairs)[j + 1];
        }
      }
      UpdateKeeps(d1, pairs[1..], x);
    }
  }

  /** Assigning names that are all present keeps the order of the names. */
  lemma {:induction false} UpdateExisting<V>(d: ODict<V>, pairs: seq<(string, V)>)
    requires d.Valid() && forall i :: 0 <= i < |pairs| ==> pairs[i].0 in d.m
    ensures d.Update(pairs).names == d.names
    decreases |pairs|
  {
    if pairs != [] {
      var d1 := d.Set(pairs[0].0, pairs[0].1);
      assert forall i :: 0 <= i < |pairs| - 1 ==> pairs[1..][i] == pairs[i + 1];
      UpdateExisting(d1, pairs[1..]);
    }
  }

  /** Fresh, distinct names are appended in order. */
  lemma {:induction false} UpdateDistinctNames<V>(d: ODict<V>, pairs: seq<(string, V)>)
    requires d.Valid() && DistinctNames(pairs)
    requires forall i :: 0 <= i < |pairs| ==> pairs[i].0 !in d.m
    ensures d.Update(pairs).names == d.names + Names(pairs)
    decreases |pairs|
  {
    if pairs == [] {
      assert Names(pairs) == [];
    } else {
      var k, ns := pairs[0].0, Names(pairs[1..]);
      var d1 := d.Set(k, pairs[0].1);
      FreshTail(d, pairs);
      UpdateDistinctNames(d1, pairs[1..]);
      UpdateCons(d, pairs);
      AppendCons(d.names, k, ns);
    }
  }

  /** `d.update(pairs)` assigns the first pair, then the rest. */
  lemma UpdateCons<V>(d: ODict<V>, pairs: seq<(string, V)>)
    requires d.Valid() && pairs != []
    ensures d.Update(pairs) == d.Set(pairs[0].0, pairs[0].1).Update(pairs[1..])
    ensures Names(pairs) == [pairs[0].0] + Names(pairs[1..])
  {
    NamesCons(pairs);
  }

  lemma AppendCons(a: seq<string>, k: string, b: seq<string>)
    ensures (a + [k]) + b == a + ([k] + b)
  {
  }

  lemma FreshTail<V>(d: ODict<V>, pairs: seq<(string, V)>)
    requires d.Valid() && DistinctNames(pairs) && pairs != []
    requires forall i :: 0 <= i < |pairs| ==> pairs[i].0 !in d.m
    ensures var d1 := d.Set(pairs[0].0, pairs[0].1);
      && d1.names == d.names + [pairs[0].0]
      && DistinctNames(pairs[1..])
      && forall i :: 0 <= i < |pairs| - 1 ==> pairs[1..][i].0 !in d1.m
  {
    var tail := pairs[1..];
    assert DistinctNames(tail) by {
      forall i, j | 0 <= i < j < |tail| ensures tail[i].0 != tail[j].0 {
        assert tail[i] == pairs[i + 1] && tail[j] == pairs[j + 1];
      }
    }
    forall i | 0 <= i < |tail| ensures tail[i].0 !in d.m[pairs[0].0 := pairs[0].1] {
      assert tail[i] == pairs[i + 1];
    }
  }

  /** One pair put into an empty dict gives the one-entry dict. */
  lemma SinglePair<V>(k: string, v: V)
    ensures Empty<V>().Update([(k, v)]) == Empty<V>().Set(k, v) == ODict([k], map[k := v])
  {
    UpdateCons(Empty<V>(), [(k, v)]);
    assert [(k, v)][1..] == [];
  }

  lemma NamesCons<V>(pairs: seq<(string, V)>)
    requires pairs != []
    ensures Names(pairs) == [pairs[0].0] + Names(pairs[1..])
  {
    assert forall i :: 0 <= i < |pairs| - 1 ==> Names(pairs[1..])[i] == Names(pairs)[i + 1];
  }

  /** With distinct names, each name of the pairs ends up with its own value. */
  lemma {:induction false} UpdateDistinctValues<V>(d: ODict<V>, pairs: seq<(string, V)>, i: nat)
    requires d.Valid() && DistinctNames(pairs) && i < |pairs|
    ensures d.Update(pairs).m[pairs[i].0] == pairs[i].1
    decreases |pairs|
  {
    var d1 := d.Set(pairs[0].0, pairs[0].1);
    var tail := pairs[1..];
    if i == 0 {
      assert pairs[0].0 !in Names(tail) by {
        forall j | 0 <= j < |tail| ensures Names(tail)[j] != pairs[0].0 {
          assert tail[j] == pairs[j + 1];
        }
      }
      UpdateKeeps(d1, tail, pairs[0].0);
    } else {
      assert tail[i - 1] == pairs[i];
      UpdateDistinctValues(d1, tail, i - 1);
    }
  }

  /** `s` with `k` dropped; for distinct names, Python's `del` of that entry. */
  function Without(s: seq<string>, k: string): (r: seq<string>)
    requires forall i, j :: 0 <= i < j < |s| ==> s[i] != s[j]
    ensures forall i, j :: 0 <= i < j < |r| ==> r[i] != r[j]
    ensures forall x :: x in r <==> x in s && x != k
    ensures |r| == if k in s then |s| - 1 else |s|
  {
    if s == [] then []
    else if s[0] == k then
      assert k !in s[1..] by {
        forall j | 1 <= j < |s| ensures s[j] != k { }
      }
      s[1..]
    else
      var rest := Without(s[1..], k);
      assert s[0] !in s[1..] by {
        forall j | 1 <= j < |s| ensures s[j] != s[0] { }
      }
      assert forall j :: 0 <= j < |rest| ==> rest[j] in rest;
      assert s == [s[0]] + s[1..];
      [s[0]] + rest
  }

  /** `Without` keeps the other names in their order: it cuts `k` out where it stands. */
  lemma {:induction false} WithoutKeepsOrder(s: seq<string>, k: string, i: nat)
    requires forall i, j :: 0 <= i < j < |s| ==> s[i] != s[j]
    requires i < |s| && s[i] == k
    ensures Without(s, k) == s[..i] + s[i + 1..]
    decreases i
  {
    if i == 0 {
      assert s[..0] + s[1..] == s[1..];
    } else {
      var t := s[1..];
      assert t[i - 1] == k && s[0] != k;
      WithoutKeepsOrder(t, k, i - 1);
      assert Without(s, k) == [s[0]] + Without(t, k);
      CutAfterHead(s, i);
    }
  }

  /** Cutting position `i > 0` out of `s` is cutting position `i - 1` out of its tail, behind the head. */
  lemma CutAfterHead<T>(s: seq<T>, i: nat)
    requires 0 < i < |s|
    ensures s[..i] + s[i + 1..] == [s[0]] + (s[1..][..i - 1] + s[1..][i..])
  {
    assert s[..i] == [s[0]] + s[1..][..i - 1];
    assert s[i + 1..] == s[1..][i..];
  }

  /** `first_value(d)`: the value of the first name in insertion order; none for an empty dict. */
  function FirstValue<V>(d: ODict<V>): (r: Option<V>)
    requires d.Valid()
    ensures r.None? <==> d.names == []
    ensures r.Some? ==> d.names[0] in d.m && r.value == d.m[d.names[0]]
  {
    if d.names == [] then None else Some(d.m[d.names[0]])
  }
}
