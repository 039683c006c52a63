/**
 * Binary search over an ascending column, as numpy's `searchsorted` does it:
 * the left bound is the first position whose value is not below the key, the
 * right bound the first position whose value is above it.
 */
module Search {
  import opened Values

  predicate Ascending(a: seq<Value>)
  {
    forall i, j :: 0 <= i < j < |a| ==> Le(a[i], a[j])
  }

  /** The number of leading values below `k`; for an ascending `a`, where `k` would be inserted on the left. */
  function CountBelow(a: seq<Value>, k: Value): (c: nat)
    ensures c <= |a|
  {
    if a == [] || !Lt(a[0], k) then 0 else 1 + CountBelow(a[1..], k)
  }

  lemma {:induction false} CountBelowSplits(a: seq<Value>, k: Value)
    requires Ascending(a)
    ensures forall i :: 0 <= i < CountBelow(a, k) ==> Lt(a[i], k)
    ensures forall i :: CountBelow(a, k) <= i < |a| ==> !Lt(a[i], k)
  {
    if a != [] {
      if Lt(a[0], k) {
        CountBelowSplits(a[1..], k);
        forall i | 1 <= i < |a| && CountBelow(a, k) <= i ensures !Lt(a[i], k) {
          assert a[1..][i - 1] == a[i];
        }
      } else {
        forall i | 0 <= i < |a| ensures !Lt(a[i], k) {
          if Lt(a[i], k) {
            LeLtTransitive(a[0], a[i], k);
          }
        }
      }
    }
  }

  /** A position splitting `a` into values below `k` and values not below it is `CountBelow(a, k)`. */
  lemma {:induction false} LowerBoundIsCountBelow(a: seq<Value>, k: Value, p: nat)
    requires p <= |a|
    requires forall i :: 0 <= i < p ==> Lt(a[i], k)
    requires forall i :: p <= i < |a| ==> !Lt(a[i], k)
    ensures p == CountBelow(a, k)
  {
    if a != [] {
      if Lt(a[0], k) {
        assert p != 0;
        forall i | p - 1 <= i < |a[1..]| ensures !Lt(a[1..][i], k) {
          assert a[1..][i] == a[i + 1];
        }
        LowerBoundIsCountBelow(a[1..], k, p - 1);
      } else {
        assert p == 0;
      }
    }
  }

  /** numpy's `searchsorted(a, k, side="left")`. */
  method SearchLeft(a: seq<Value>, k: Value) returns (p: nat)
    requires Ascending(a)
    ensures p <= |a|
    ensures forall i :: 0 <= i < p ==> Lt(a[i], k)
    ensures forall i :: p <= i < |a| ==> !Lt(a[i], k)
    ensures p == CountBelow(a, k)
  {
    var lo, hi := 0, |a|;
    while lo < hi
      invariant 0 <= lo <= hi <= |a|
      invariant forall i :: 0 <= i < lo ==> Lt(a[i], k)
      invariant forall i :: hi <= i < |a| ==> !Lt(a[i], k)
    {
      var mid := (lo + hi) / 2;
      if Lt(a[mid], k) {
        forall i | 0 <= i < mid ensures Lt(a[i], k) {
          LeLtTransitive(a[i], a[mid], k);
        }
        lo := mid + 1;
      } else {
        forall i | mid < i < |a| ensures !Lt(a[i], k) {
          if Lt(a[i], k) {
            LeLtTransitive(a[mid], a[i], k);
          }
        }
        hi := mid;
      }
    }
    p := lo;
    LowerBoundIsCountBelow(a, k, p);
  }

  /** numpy's `searchsorted(a, k, side="right")`. */
  method SearchRight(a: seq<Value>, k: Value) returns (p: nat)
    requires Ascending(a)
    ensures p <= |a|
    ensures forall i :: 0 <= i < p ==> Le(a[i], k)
    ensures forall i :: p <= i < |a| ==> Lt(k, a[i])
  {
    var lo, hi := 0, |a|;
    while lo < hi
      invariant 0 <= lo <= hi <= |a|
      invariant forall i :: 0 <= i < lo ==> Le(a[i], k)
      invariant forall i :: hi <= i < |a| ==> Lt(k, a[i])
    {
      var mid := (lo + hi) / 2;
      NotLtIsLe(a[mid], k);
      if Lt(k, a[mid]) {
        forall i | mid < i < |a| ensures Lt(k, a[i]) {
          LtLeTransitive(k, a[mid], a[i]);
        }
        hi := mid;
      } else {
        forall i | 0 <= i < mid ensures Le(a[i], k) {
          LeTransitive(a[i], a[mid], k);
        }
        lo := mid + 1;
      }
    }
    p := lo;
  }
}
