/**
 * Containers of column names: anything that answers `name in c`. The
 * combinators `All`, `only`, `~`, `&` and `|` build new containers, and
 * `select` / `select_ordered` pick names out of a table's name list with a
 * container, a name sequence (possibly with one `...`) or a slice.
 */
module Containers {
  import opened Wrappers
  import opened Errors
  import opened PyLib

  /**
   * A container of names. `Plain` is a built-in `set`, `EmptyDict` the empty
   * `dict` that `~All` returns; the others are the package's container classes.
   */
  datatype Container =
    | All
    | Plain(items: set<string>)
    | EmptyDict
    | Only(members: set<string>)
    | Not(inner: Container)
    | And(parts: seq<Container>)
    | Or(parts: seq<Container>)

  /** A built-in `set` or `dict`, as opposed to the package's container classes. */
  predicate BuiltIn(c: Container)
  {
    c.Plain? || c.EmptyDict?
  }

  /** `x in c`. */
  predicate Contains(c: Container, x: string)
  {
    match c
    case All => true
    case Plain(s) => x in s
    case EmptyDict => false
    case Only(s) => x in s
    case Not(d) => !Contains(d, x)
    case And(ps) => forall i :: 0 <= i < |ps| ==> Contains(ps[i], x)
    case Or(ps) => exists i :: 0 <= i < |ps| && Contains(ps[i], x)
  }

  /** `all_but(*xs)`, that is `~only(*xs)`. */
  function AllBut(xs: set<string>): (c: Container)
    ensures forall y :: Contains(c, y) <==> y !in xs
  {
    Not(Only(xs))
  }

  /** `~c`: `All` turns into an empty `dict`, a `_Not` gives back what it wraps, a built-in set or dict has no `~`. */
  function Invert(c: Container): (r: Result<Container, Error>)
    ensures r.Err? <==> BuiltIn(c)
    ensures r.Ok? ==> forall x :: Contains(r.value, x) <==> !Contains(c, x)
  {
    match c
    case All => Ok(EmptyDict)
    case Plain(_) => Err(TypeError("bad operand type for unary ~"))
    case EmptyDict => Err(TypeError("bad operand type for unary ~"))
    case Not(d) => Ok(d)
    case _ => Ok(Not(c))
  }

  /** `~~c` is `c` for the package's own container classes. */
  lemma InvertInvolutive(c: Container)
    requires c.Only? || c.And? || c.Or?
    ensures Invert(c).Ok? && Invert(Invert(c).value) == Ok(c)
  {
  }

  /** `~~All` fails: the first `~` yields a built-in `dict`, which has no `~`. */
  lemma InvertAllTwice()
    ensures Invert(All).Ok? && Invert(Invert(All).value).Err?
  {
  }

  /**
   * `a | b`, following Python's dispatch: `All.__or__`, `_Or.__or__` (which
   * flattens), `Container.__or__`, and for a built-in set or dict on the left
   * its own union or else the right operand's reflected `__ror__`. A set and a
   * dict have no union with each other.
   */
  function OrWith(a: Container, b: Container): (r: Result<Container, Error>)
    ensures r.Err? <==> (a.Plain? && b.EmptyDict?) || (a.EmptyDict? && b.Plain?)
    ensures r.Ok? ==> forall x :: Contains(r.value, x) <==> Contains(a, x) || Contains(b, x)
  {
    match a
    case All => Ok(All)
    case Or(ps) =>
      var r := Or(ps + [b]);
      assert forall x :: Contains(b, x) ==> Contains(r, x) by {
        forall x | Contains(b, x) ensures Contains(r, x) {
          assert (ps + [b])[|ps|] == b;
        }
      }
      assert forall i :: 0 <= i < |ps| ==> (ps + [b])[i] == ps[i];
      Ok(r)
    case Plain(s) => PlainOr(s, b)
    case EmptyDict => DictOr(b)
    case _ => Ok(Either(a, b))
  }

  /** `_Or(p, q)`. */
  function Either(p: Container, q: Container): (r: Container)
    ensures forall x :: Contains(r, x) <==> Contains(p, x) || Contains(q, x)
  {
    var r := Or([p, q]);
    assert r.parts[0] == p && r.parts[1] == q;
    r
  }

  /** `set | b`: a union with another set, a `TypeError` with a dict, otherwise `b.__ror__(set)`. */
  function PlainOr(s: set<string>, b: Container): (r: Result<Container, Error>)
    ensures r.Err? <==> b.EmptyDict?
    ensures r.Ok? ==> forall x :: Contains(r.value, x) <==> x in s || Contains(b, x)
  {
    match b
    case Plain(t) => Ok(Plain(s + t))
    case EmptyDict => Err(TypeError("unsupported operand type(s) for |"))
    case _ => Ok(ReflectedOr(Plain(s), b))
  }

  /** `{} | b`: the merge of two dicts (Python 3.9 on), a `TypeError` with a set, otherwise `b.__ror__({})`. */
  function DictOr(b: Container): (r: Result<Container, Error>)
    ensures r.Err? <==> b.Plain?
    ensures r.Ok? ==> forall x :: Contains(r.value, x) <==> Contains(b, x)
  {
    match b
    case EmptyDict => Ok(EmptyDict)
    case Plain(_) => Err(TypeError("unsupported operand type(s) for |"))
    case _ => Ok(ReflectedOr(EmptyDict, b))
  }

  /** `b.__ror__(a)`, which calls `b.__or__(a)`, for one of the package's containers `b`. */
  function ReflectedOr(a: Container, b: Container): (r: Container)
    requires !BuiltIn(b)
    ensures forall x :: Contains(r, x) <==> Contains(a, x) || Contains(b, x)
  {
    match b
    case All => All
    case Or(ps) =>
      var r := Or(ps + [a]);
      assert forall x :: Contains(a, x) ==> Contains(r, x) by {
        forall x | Contains(a, x) ensures Contains(r, x) {
          assert (ps + [a])[|ps|] == a;
        }
      }
      assert forall i :: 0 <= i < |ps| ==> (ps + [a])[i] == ps[i];
      r
    case _ => Either(b, a)
  }

  /** `(~All) | {"a"}` and `{"a"} | ~All` raise: `~All` is a dict, and a dict and a set have no union. */
  lemma InvertAllOrSetFails()
    ensures Invert(All) == Ok(EmptyDict)
    ensures OrWith(EmptyDict, Plain({"a"})).Err? && OrWith(Plain({"a"}), EmptyDict).Err?
  {
  }

  /**
   * What `a & b` does as written: the base class spells its method `__and___`,
   * so only `All` and `_And` on one side and built-in sets on both sides work.
   */
  function AndWithAsWritten(a: Container, b: Container): (r: Result<Container, Error>)
    ensures r.Ok? <==> a.All? || a.And? || b.All? || b.And? || (a.Plain? && b.Plain?)
  {
    match a
    case All => Ok(b)
    case And(ps) => Ok(And(ps + [b]))
    case Plain(s) =>
      if b.Plain? then Ok(Plain(s * b.items))
      else if b.EmptyDict? then Err(TypeError("unsupported operand type(s) for &"))
      else Reflected(a, b)
    case _ =>
      if SameClass(a, b) then Err(TypeError("unsupported operand type(s) for &"))
      else if BuiltIn(b) then Err(TypeError("unsupported operand type(s) for &"))
      else Reflected(a, b)
  }

  /** `b.__rand__(a)`, which calls `b.__and__(a)`, as written. */
  function Reflected(a: Container, b: Container): (r: Result<Container, Error>)
    requires !BuiltIn(b)
    ensures r.Ok? <==> b.All? || b.And?
  {
    match b
    case All => Ok(a)
    case And(ps) => Ok(And(ps + [a]))
    case _ => Err(AttributeError("__and__"))
  }

  /** Python only tries the reflected operator when the operands' classes differ. */
  predicate SameClass(a: Container, b: Container)
  {
    (a.Only? && b.Only?) || (a.Not? && b.Not?) || (a.Or? && b.Or?) || (a.EmptyDict? && b.EmptyDict?)
  }

  /** `only("x") & all_but("y")` raises instead of building the intersection. */
  lemma AndOfOnlyAndAllButFails()
    ensures AndWithAsWritten(Only({"x"}), AllBut({"y"})) == Err(AttributeError("__and__"))
    ensures AndWithAsWritten(Only({"x"}), Only({"y"})).Err?
  {
  }

  /**
   * `a & b` with the base class's `__and__` spelled as intended: an `_And` of
   * both. A built-in set or dict on the left defers to the right operand,
   * unless that is built in too; a set and a dict, or two dicts, have no `&`.
   */
  function AndWith(a: Container, b: Container): (r: Result<Container, Error>)
    ensures r.Err? <==> BuiltIn(a) && BuiltIn(b) && !(a.Plain? && b.Plain?)
    ensures r.Ok? ==> forall x :: Contains(r.value, x) <==> Contains(a, x) && Contains(b, x)
  {
    match a
    case All => Ok(b)
    case And(ps) =>
      var r := And(ps + [b]);
      assert forall i :: 0 <= i < |ps| ==> (ps + [b])[i] == ps[i];
      assert (ps + [b])[|ps|] == b;
      Ok(r)
    case Plain(s) => PlainAnd(s, b)
    case EmptyDict =>
      if BuiltIn(b) then Err(TypeError("unsupported operand type(s) for &"))
      else Ok(ReflectedAnd(EmptyDict, b))
    case _ => Ok(Both(a, b))
  }

  /** `_And(p, q)`. */
  function Both(p: Container, q: Container): (r: Container)
    ensures forall x :: Contains(r, x) <==> Contains(p, x) && Contains(q, x)
  {
    var r := And([p, q]);
    assert r.parts[0] == p && r.parts[1] == q;
    r
  }

  /** `set & b`: an intersection with another set, a `TypeError` with a dict, otherwise `b.__rand__(set)`. */
  function PlainAnd(s: set<string>, b: Container): (r: Result<Container, Error>)
    ensures r.Err? <==> b.EmptyDict?
    ensures r.Ok? ==> forall x :: Contains(r.value, x) <==> x in s && Contains(b, x)
  {
    match b
    case Plain(t) => Ok(Plain(s * t))
    case EmptyDict => Err(TypeError("unsupported operand type(s) for &"))
    case _ => Ok(ReflectedAnd(Plain(s), b))
  }

  /** `b.__rand__(a)` with `b.__and__` spelled as intended, for one of the package's containers `b`. */
  function ReflectedAnd(a: Container, b: Container): (r: Container)
    requires !BuiltIn(b)
    ensures forall x :: Contains(r, x) <==> Contains(a, x) && Contains(b, x)
  {
    match b
    case All => a
    case And(ps) =>
      var r := And(ps + [a]);
      assert forall i :: 0 <= i < |ps| ==> (ps + [a])[i] == ps[i];
      assert (ps + [a])[|ps|] == a;
      r
    case _ => Both(b, a)
  }

  /** `(~All) & {"a"}` raises whether or not `&` is spelled right: a dict has no `&`, and a set none with a dict. */
  lemma InvertAllAndSetFails()
    ensures AndWith(EmptyDict, Plain({"a"})).Err? && AndWith(Plain({"a"}), EmptyDict).Err?
    ensures AndWithAsWritten(EmptyDict, Plain({"a"})).Err? && AndWithAsWritten(Plain({"a"}), EmptyDict).Err?
  {
  }

  /** Where the written `&` succeeds, so does the corrected one, and the two contain the same names. */
  lemma AndWithAgrees(a: Container, b: Container, x: string)
    requires AndWithAsWritten(a, b).Ok?
    ensures AndWith(a, b).Ok?
    ensures Contains(AndWithAsWritten(a, b).value, x) <==> Contains(AndWith(a, b).value, x)
  {
    var r := AndWithAsWritten(a, b).value;
    match a
    case All =>
    case And(ps) =>
      assert forall i :: 0 <= i < |ps| ==> (ps + [b])[i] == ps[i];
      assert (ps + [b])[|ps|] == b;
    case _ =>
      if b.And? {
        var ps := b.parts;
        assert forall i :: 0 <= i < |ps| ==> (ps + [a])[i] == ps[i];
        assert (ps + [a])[|ps|] == a;
      }
  }

  // ---------------------------------------------------------------------------
  // select and select_ordered

  /** `select(items, c)`: the items in `c`, in the items' order. */
  function Select(items: seq<string>, c: Container): (r: seq<string>)
    ensures forall i :: 0 <= i < |r| ==> r[i] in items && Contains(c, r[i])
    ensures forall i :: 0 <= i < |items| && Contains(c, items[i]) ==> items[i] in r
    ensures |r| <= |items|
    ensures Distinct(items) ==> Distinct(r)
  {
    if items == [] then []
    else
      var rest := Select(items[1..], c);
      assert Distinct(items) ==> Distinct(items[1..]) && items[0] !in items[1..];
      if Contains(c, items[0]) then [items[0]] + rest else rest
  }

  /** `select` keeps the items' order: it works item by item, keeping an item just when `c` contains it. */
  lemma {:induction false} SelectConcat(a: seq<string>, b: seq<string>, c: Container)
    ensures Select(a + b, c) == Select(a, c) + Select(b, c)
  {
    if a == [] {
      assert a + b == b;
    } else {
      var h, t := a[0], a[1..];
      SelectConcat(t, b, c);
      SplitHead(a, b);
      SelectCons(h, t + b, c);
      SelectCons(h, t, c);
      JoinStep(Select(a + b, c), Select(a, c), Select(t + b, c), Select(t, c), Select(b, c), if Contains(c, h) then [h] else []);
    }
  }

  /** `select` of an item followed by more: that item's verdict, then the rest. */
  lemma SelectCons(h: string, rest: seq<string>, c: Container)
    ensures Select([h] + rest, c) == (if Contains(c, h) then [h] else []) + Select(rest, c)
  {
    assert ([h] + rest)[1..] == rest;
  }

  /** Selecting with `All` keeps every item in order. */
  lemma {:induction false} SelectAll(items: seq<string>)
    ensures Select(items, All) == items
  {
    if items != [] {
      SelectAll(items[1..]);
    }
  }

  /** An entry of a name sequence: a name, or the `...` that stands for the names not listed. */
  datatype Entry = Name(name: string) | Ellipsis

  /** The second argument of `select_ordered`. */
  datatype Selector =
    | Entries(entries: seq<Entry>)
    | SliceOf(slice: Slice)
    | Filter(container: Container)

  /** The names among `es`, which hold no `...`. */
  function NamesOf(es: seq<Entry>): (r: seq<string>)
    requires Ellipsis !in es
    ensures |r| == |es| && forall i :: 0 <= i < |es| ==> es[i] == Name(r[i])
  {
    if es == [] then [] else [es[0].name] + NamesOf(es[1..])
  }

  /** `select_ordered(items, sel)`. */
  function SelectOrdered(items: seq<string>, sel: Selector): (r: Result<seq<string>, Error>)
    ensures sel.Filter? ==> r == Ok(Select(items, sel.container))
    ensures sel.SliceOf? ==> r == GetSlice(items, sel.slice)
    ensures r.Ok? ==> forall x :: x in r.value ==> x in items
  {
    match sel
    case Filter(c) => Ok(Select(items, c))
    case SliceOf(sl) => GetSlice(items, sl)
    case Entries(es) =>
      var e := IndexOf(es, Ellipsis);
      if e == |es| then Ok(Common(NamesOf(es), items))
      else
        var tail := es[e + 1..];
        if Ellipsis in tail then Err(AssertionError)
        else
          var head := Common(NamesOf(es[..e]), items);
          var last := Common(NamesOf(tail), items);
          Ok(head + Missing(items, head + last) + last)
  }

  /** Without `...`, the listed names that are items, in the listed order. */
  lemma SelectOrderedNoEllipsis(items: seq<string>, es: seq<Entry>)
    requires Ellipsis !in es
    ensures SelectOrdered(items, Entries(es)).Ok?
    ensures var r := SelectOrdered(items, Entries(es)).value;
      && (forall i :: 0 <= i < |r| ==> Name(r[i]) in es && r[i] in items)
      && (forall i :: 0 <= i < |es| && es[i].name in items ==> es[i].name in r)
    ensures es == [] ==> SelectOrdered(items, Entries(es)) == Ok([])
    ensures es != [] ==>
      SelectOrdered(items, Entries(es)).value
        == (if es[0].name in items then [es[0].name] else []) + SelectOrdered(items, Entries(es[1..])).value
  {
    SelectOrderedNames(items, es);
    if es != [] {
      NamesOfCons(es);
      SelectOrderedNames(items, es[1..]);
      CommonCons(es[0].name, NamesOf(es[1..]), items);
    }
  }

  /** Without `...`, `select_ordered` keeps the entries' names that are items. */
  lemma SelectOrderedNames(items: seq<string>, es: seq<Entry>)
    requires Ellipsis !in es
    ensures SelectOrdered(items, Entries(es)) == Ok(Common(NamesOf(es), items))
  {
    assert IndexOf(es, Ellipsis) == |es|;
  }

  /** The names of entries following one more entry. */
  lemma NamesOfCons(es: seq<Entry>)
    requires Ellipsis !in es && es != []
    ensures Ellipsis !in es[1..] && NamesOf(es) == [es[0].name] + NamesOf(es[1..])
  {
  }

  /** Without `...`, the selection for two runs of entries is the first run's, then the second's. */
  lemma SelectOrderedListedOrder(items: seq<string>, es1: seq<Entry>, es2: seq<Entry>)
    requires Ellipsis !in es1 && Ellipsis !in es2
    ensures Ellipsis !in es1 + es2
    ensures SelectOrdered(items, Entries(es1 + es2)) ==
      Ok(SelectOrdered(items, Entries(es1)).value + SelectOrdered(items, Entries(es2)).value)
  {
    NamesOfConcat(es1, es2);
    CommonConcat(NamesOf(es1), NamesOf(es2), items);
  }

  /** The names of two runs of entries, one after the other. */
  lemma {:induction false} NamesOfConcat(es1: seq<Entry>, es2: seq<Entry>)
    requires Ellipsis !in es1 && Ellipsis !in es2
    ensures Ellipsis !in es1 + es2 && NamesOf(es1 + es2) == NamesOf(es1) + NamesOf(es2)
  {
    var n := NamesOf(es1) + NamesOf(es2);
    assert |NamesOf(es1 + es2)| == |n|;
    forall i | 0 <= i < |n| ensures NamesOf(es1 + es2)[i] == n[i] {
      if i < |es1| {
        assert (es1 + es2)[i] == es1[i];
      } else {
        assert (es1 + es2)[i] == es2[i - |es1|];
      }
    }
  }

  /** With one `...`, the head's items, then the items named nowhere, then the tail's items. */
  lemma SelectOrderedEllipsis(items: seq<string>, head: seq<Entry>, tail: seq<Entry>)
    requires Ellipsis !in head && Ellipsis !in tail
    ensures var r := SelectOrdered(items, Entries(head + [Ellipsis] + tail));
      var h, t := Common(NamesOf(head), items), Common(NamesOf(tail), items);
      r == Ok(h + Missing(items, h + t) + t)
  {
    var es := head + [Ellipsis] + tail;
    assert IndexOf(es, Ellipsis) == |head| by {
      assert es[|head|] == Ellipsis;
      assert forall j :: 0 <= j < |head| ==> es[j] == head[j];
    }
    assert es[..|head|] == head && es[|head| + 1..] == tail;
  }

  /** A lone `...` selects the items no entry names. */
  lemma SelectOrderedLone(items: seq<string>)
    ensures SelectOrdered(items, Entries([Ellipsis])) == Ok(Missing(items, []))
  {
    var none: seq<Entry> := [];
    SelectOrderedEllipsis(items, none, none);
    assert none + [Ellipsis] + none == [Ellipsis];
    NoEntriesNoNames(items, none);
    var front := Common(NamesOf(none), items);
    assert front + front == [];
    assert front + Missing(items, []) + front == Missing(items, []);
  }

  /** No entries name no items. */
  lemma NoEntriesNoNames(items: seq<string>, none: seq<Entry>)
    requires none == []
    ensures Common(NamesOf(none), items) == []
  {
    assert NamesOf(none) == [];
  }

  /** Two `...` trip the assertion. */
  lemma SelectOrderedTwoEllipses(items: seq<string>)
    ensures SelectOrdered(items, Entries([Ellipsis, Ellipsis])) == Err(AssertionError)
  {
    var es := [Ellipsis, Ellipsis];
    assert IndexOf(es, Ellipsis) == 0;
    assert es[1..] == [Ellipsis];
  }

  /** With distinct names and one `...`, the selection reorders the items: every item exactly once. */
  lemma SelectOrderedPermutes(items: seq<string>, head: seq<Entry>, tail: seq<Entry>)
    requires Ellipsis !in head && Ellipsis !in tail
    requires Distinct(items) && Distinct(NamesOf(head) + NamesOf(tail))
    ensures var r := SelectOrdered(items, Entries(head + [Ellipsis] + tail));
      r.Ok? && multiset(r.value) == multiset(items)
  {
    SelectOrderedEllipsis(items, head, tail);
    var hn, tn := NamesOf(head), NamesOf(tail);
    DistinctParts(hn, tn);
    var h, t := Common(hn, items), Common(tn, items);
    ThreeWayPermutes(items, h, t);
  }

  /** The halves of a distinct concatenation are distinct and share nothing. */
  lemma DistinctParts(a: seq<string>, b: seq<string>)
    requires Distinct(a + b)
    ensures Distinct(a) && Distinct(b)
    ensures forall x :: x in a ==> x !in b
  {
    var ns := a + b;
    assert forall i :: 0 <= i < |a| ==> ns[i] == a[i];
    assert forall i :: 0 <= i < |b| ==> ns[|a| + i] == b[i];
    forall i, j | 0 <= i < |a| && 0 <= j < |b| ensures a[i] != b[j] {
      assert ns[i] == a[i] && ns[|a| + j] == b[j];
    }
  }

  /** `h + (items in neither h nor t) + t` reorders `items` when `h` and `t` are disjoint distinct parts of it. */
  lemma ThreeWayPermutes(items: seq<string>, h: seq<string>, t: seq<string>)
    requires Distinct(items) && Distinct(h) && Distinct(t)
    requires forall x :: x in h ==> x !in t
    requires forall x :: x in h + t ==> x in items
    ensures multiset(h + Missing(items, h + t) + t) == multiset(items)
  {
    var m := Missing(items, h + t);
    var r := h + m + t;
    assert Distinct(r) by {
      DistinctConcat(h, m);
      DistinctConcat(h + m, t);
    }
    forall x ensures x in r <==> x in items {
      if x in items && x !in h && x !in t {
        var i :| 0 <= i < |items| && items[i] == x;
        assert items[i] in m;
      }
    }
    SameMembersSameMultiset(r, items);
  }

  lemma DistinctConcat(a: seq<string>, b: seq<string>)
    requires Distinct(a) && Distinct(b) && forall x :: x in a ==> x !in b
    ensures Distinct(a + b)
  {
    var s := a + b;
    forall i, j | 0 <= i < j < |s| ensures s[i] != s[j] {
      if i < |a| && j >= |a| {
        assert s[i] in a && s[j] == b[j - |a|];
      }
    }
  }

  lemma {:induction false} DistinctMultiset(s: seq<string>)
    requires Distinct(s)
    ensures forall x :: multiset(s)[x] == if x in s then 1 else 0
  {
    if s != [] {
      var t := s[1..];
      assert Distinct(t);
      DistinctMultiset(t);
      assert s == [s[0]] + t;
      assert s[0] !in t;
    }
  }

  lemma SameMembersSameMultiset(a: seq<string>, b: seq<string>)
    requires Distinct(a) && Distinct(b)
    requires forall x :: x in a <==> x in b
    ensures multiset(a) == multiset(b)
  {
    DistinctMultiset(a);
    DistinctMultiset(b);
    assert forall x :: multiset(a)[x] == multiset(b)[x];
  }
}
