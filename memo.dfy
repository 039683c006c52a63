/**
 * Memoisation: `memoize_with(memo)` caches a function's results in a dict
 * keyed by its arguments, `memoize` does so with a new empty dict, and
 * `lazy_property` caches a property's value on its object after the first read.
 */
module Memo {
  import opened Wrappers
  import opened Values

  /**
   * A Python object as far as a cache key sees it: a scalar, a tuple, or the
   * private marker object a key can use to separate its parts.
   */
  datatype Obj = Atom(v: Value) | Tuple(items: seq<Obj>) | Mark

  /** A call: positional arguments, then keyword arguments in ascending name order (as `sorted` lists them). */
  datatype Call = Call(args: seq<Obj>, kw: seq<(string, Obj)>)

  /** The keyword arguments as the `(name, value)` tuples `sorted(kw_args.items())` yields. */
  function KwTuples(kw: seq<(string, Obj)>): (ts: seq<Obj>)
    ensures |ts| == |kw|
    ensures forall i :: 0 <= i < |kw| ==> ts[i] == Tuple([Atom(Str(kw[i].0)), kw[i].1])
  {
    seq(|kw|, i requires 0 <= i < |kw| => Tuple([Atom(Str(kw[i].0)), kw[i].1]))
  }

  /** The key `memoize_with` builds, as written: the positional arguments followed directly by the keyword tuples. */
  function KeyAsWritten(c: Call): (k: seq<Obj>)
    ensures |k| == |c.args| + |c.kw|
    ensures k[..|c.args|] == c.args && k[|c.args|..] == KwTuples(c.kw)
  {
    c.args + KwTuples(c.kw)
  }

  /**
   * A positional tuple argument `("a", 1)` and the keyword argument `a=1`
   * make the same key, so the two different calls share one cache entry.
   */
  lemma KeysCollide()
    ensures var c1 := Call([Tuple([Atom(Str("a")), Atom(Int(1))])], []);
      var c2 := Call([], [("a", Atom(Int(1)))]);
      c1 != c2 && KeyAsWritten(c1) == KeyAsWritten(c2)
  {
    var c1 := Call([Tuple([Atom(Str("a")), Atom(Int(1))])], []);
    var c2 := Call([], [("a", Atom(Int(1)))]);
    assert KeyAsWritten(c2)[0] == Tuple([Atom(Str("a")), Atom(Int(1))]);
  }

  /**
   * With the key as written, a cache that holds the right value for the
   * positional call answers the keyword call with that value, whatever the
   * function returns for it.
   */
  lemma CollisionServesWrongValue(f: Call -> Obj)
    requires f(Call([Tuple([Atom(Str("a")), Atom(Int(1))])], [])) != f(Call([], [("a", Atom(Int(1)))]))
    ensures var c1 := Call([Tuple([Atom(Str("a")), Atom(Int(1))])], []);
      var c2 := Call([], [("a", Atom(Int(1)))]);
      var memo := map[KeyAsWritten(c1) := f(c1)];
      KeyAsWritten(c2) in memo && memo[KeyAsWritten(c2)] != f(c2)
  {
    KeysCollide();
  }

  /** No argument is the private marker. */
  predicate Unmarked(c: Call)
  {
    forall i :: 0 <= i < |c.args| ==> c.args[i] != Mark
  }

  /** The key with the positional and keyword parts separated by the marker. */
  function Key(c: Call): (k: seq<Obj>)
    ensures |k| == |c.args| + 1 + |c.kw|
    ensures k[..|c.args|] == c.args && k[|c.args|] == Mark && k[|c.args| + 1..] == KwTuples(c.kw)
  {
    c.args + [Mark] + KwTuples(c.kw)
  }

  /** The first marker in a key is where the positional arguments end. */
  lemma MarkPosition(c: Call)
    requires Unmarked(c)
    ensures forall i :: 0 <= i < |c.args| ==> Key(c)[i] != Mark
    ensures Key(c)[|c.args|] == Mark
  {
  }

  /** Distinct calls have distinct keys, so no cache entry is shared. */
  lemma KeyInjective(c1: Call, c2: Call)
    requires Unmarked(c1) && Unmarked(c2) && Key(c1) == Key(c2)
    ensures c1 == c2
  {
    var k := Key(c1);
    MarkPosition(c1);
    MarkPosition(c2);
    assert Key(c2)[|c1.args|] == Mark ==> |c1.args| >= |c2.args|;
    assert Key(c1)[|c2.args|] == Mark ==> |c2.args| >= |c1.args|;
    var n := |c1.args|;
    assert c1.args == k[..n] == c2.args;
    assert KwTuples(c1.kw) == k[n + 1..] == KwTuples(c2.kw);
    assert |c1.kw| == |c2.kw|;
    forall i | 0 <= i < |c1.kw| ensures c1.kw[i] == c2.kw[i] {
      assert KwTuples(c1.kw)[i] == KwTuples(c2.kw)[i];
    }
  }

  /** A function wrapped by `memoize_with`, with its cache. */
  class Memoized {
    /** The wrapped function, which the model takes to be deterministic. */
    const f: Call -> Obj
    var memo: map<seq<Obj>, Obj>
    /** The calls, in order, on which the wrapped function actually ran. */
    ghost var calls: seq<Call>

    /**
     * Every cached entry is the function's value for the call it was stored
     * under; every call the function ran on left its key in the cache, and
     * no two of them share a key.
     */
    ghost predicate Valid()
      reads this
    {
      && (forall c :: Unmarked(c) && Key(c) in memo ==> memo[Key(c)] == f(c))
      && (forall i :: 0 <= i < |calls| ==> Key(calls[i]) in memo)
      && (forall i, j :: 0 <= i < j < |calls| ==> Key(calls[i]) != Key(calls[j]))
    }

    /** `memoize(fn)`: a new empty cache. */
    constructor (f: Call -> Obj)
      ensures this.f == f && memo == map[] && calls == [] && Valid()
    {
      this.f := f;
      memo := map[];
      calls := [];
    }

    /** `memoize_with(memo)(fn)`: a cache given by the caller, which must already agree with the function. */
    constructor With(f: Call -> Obj, memo: map<seq<Obj>, Obj>)
      requires forall c :: Unmarked(c) && Key(c) in memo ==> memo[Key(c)] == f(c)
      ensures this.f == f && this.memo == memo && calls == [] && Valid()
    {
      this.f := f;
      this.memo := memo;
      calls := [];
    }

    /**
     * Calling the memoised function: the cached value, with the function not
     * run, or the function's value, run once and stored on the way.
     */
    method Apply(c: Call) returns (v: Obj)
      requires Valid() && Unmarked(c)
      modifies this`memo, this`calls
      ensures v == f(c) && Valid()
      ensures Key(c) in old(memo) ==> memo == old(memo) && calls == old(calls)
      ensures Key(c) !in old(memo) ==> memo == old(memo)[Key(c) := v] && calls == old(calls) + [c]
    {
      var k := Key(c);
      if k in memo {
        v := memo[k];
      } else {
        v := f(c);
        memo := memo[k := v];
        calls := calls + [c];
        forall c' | Unmarked(c') && Key(c') in memo ensures memo[Key(c')] == f(c') {
          if Key(c') == k {
            KeyInjective(c', c);
          }
        }
      }
    }
  }

  /**
   * Calling a memoised function twice with the same arguments: the same value
   * both times, and the function runs at most once, on the first call and
   * only when its key was not cached yet.
   */
  method CallTwice(m: Memoized, c: Call) returns (first: Obj, second: Obj)
    requires m.Valid() && Unmarked(c)
    modifies m
    ensures first == second == m.f(c) && m.Valid()
    ensures m.calls == old(m.calls) + (if Key(c) in old(m.memo) then [] else [c])
  {
    first := m.Apply(c);
    second := m.Apply(c);
  }

  /**
   * A `lazy_property` slot. The decorated method is an effect on the state
   * it reads and changes (the object's other attributes, or counters outside
   * it): from that state it gives the property's value and the new state.
   */
  class Lazy<T, S> {
    const fn: S -> (T, S)
    var state: S
    var slot: Option<T>
    /** How many times the decorated method has run. */
    ghost var runs: nat

    /** The method has run exactly when a value is kept, and at most once. */
    ghost predicate Valid()
      reads this
    {
      (slot.None? <==> runs == 0) && runs <= 1
    }

    constructor (fn: S -> (T, S), state: S)
      ensures this.fn == fn && this.state == state && slot == None && runs == 0 && Valid()
    {
      this.fn := fn;
      this.state := state;
      slot := None;
      runs := 0;
    }

    /**
     * Reading the property: the kept value, with the state untouched and the
     * method not run; otherwise the method runs once on the state, and its
     * value is kept.
     */
    method Get() returns (v: T)
      requires Valid()
      modifies this`slot, this`state, this`runs
      ensures Valid() && slot == Some(v)
      ensures old(slot).Some? ==> v == old(slot).value && state == old(state) && runs == old(runs)
      ensures old(slot).None? ==> (v, state) == fn(old(state)) && runs == 1
    {
      if slot.Some? {
        v := slot.value;
      } else {
        var r := fn(state);
        v, state := r.0, r.1;
        slot := Some(v);
        runs := runs + 1;
      }
    }
  }

  /**
   * Reading a lazy property twice gives the same value, and the method's
   * effect happens at most once: on the first read, and only when no value
   * was kept yet.
   */
  method ReadTwice<T, S>(p: Lazy<T, S>) returns (first: T, second: T)
    requires p.Valid()
    modifies p
    ensures first == second && p.Valid() && p.runs <= 1
    ensures old(p.slot).Some? ==> first == old(p.slot).value && p.state == old(p.state)
    ensures old(p.slot).None? ==> (first, p.state) == p.fn(old(p.state))
  {
    first := p.Get();
    second := p.Get();
  }

  /**
   * A lazy property whose method hands over a private attribute and clears
   * it: the first read takes `42` and leaves `None` behind, and every later
   * read still gives `42`, though the attribute is now `None`.
   */
  method HandOver() returns (a: Option<int>, b: Option<int>, c: Option<int>, left: Option<int>)
    ensures a == b == c == Some(42) && left == None
  {
    var p := new Lazy<Option<int>, Option<int>>(x => (x, None), Some(42));
    a := p.Get();
    b := p.Get();
    c := p.Get();
    left := p.state;
  }

  /** Two objects, each read twice: the function runs once per object, twice in all. */
  method CountedReads() returns (a: int, b: int, c: int, d: int, ghost runs: nat)
    ensures a == b == 42 && c == d == 17 && runs == 2
  {
    var p := new Lazy<int, int>(x => (x, x), 42);
    var q := new Lazy<int, int>(x => (x, x), 17);
    a := p.Get();
    b := p.Get();
    c := q.Get();
    d := q.Get();
    runs := p.runs + q.runs;
  }
}
