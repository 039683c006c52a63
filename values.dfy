/**
 * The scalar values stored in columns, with the ascending order that sorting and
 * `searchsorted` use. A column holds integers or strings; strings compare
 * character by character (code point order), a proper prefix first.
 */
module Values {

  datatype Value = Int(i: int) | Str(s: string)

  /** Lexicographic order on strings by code point, as Python compares `str`. */
  predicate StrLt(a: string, b: string)
  {
    if |a| == 0 then |b| > 0
    else if |b| == 0 then false
    else a[0] < b[0] || (a[0] == b[0] && StrLt(a[1..], b[1..]))
  }

  /**
   * Strict order on values. Arrays are homogeneous, so integers and strings are
   * never compared with each other in the source; here every integer sorts first.
   */
  predicate Lt(a: Value, b: Value)
  {
    match (a, b)
    case (Int(x), Int(y)) => x < y
    case (Str(x), Str(y)) => StrLt(x, y)
    case (Int(_), Str(_)) => true
    case (Str(_), Int(_)) => false
  }

  predicate Le(a: Value, b: Value)
  {
    Lt(a, b) || a == b
  }

  lemma {:induction false} StrLtIrreflexive(a: string)
    ensures !StrLt(a, a)
  {
    if |a| > 0 {
      StrLtIrreflexive(a[1..]);
    }
  }

  lemma {:induction false} StrLtTransitive(a: string, b: string, c: string)
    requires StrLt(a, b) && StrLt(b, c)
    ensures StrLt(a, c)
  {
    if |a| > 0 && |b| > 0 && |c| > 0 && a[0] == b[0] == c[0] {
      StrLtTransitive(a[1..], b[1..], c[1..]);
    }
  }

  lemma {:induction false} StrLtTotal(a: string, b: string)
    ensures StrLt(a, b) || a == b || StrLt(b, a)
  {
    if |a| > 0 && |b| > 0 && a[0] == b[0] {
      StrLtTotal(a[1..], b[1..]);
      if a[1..] == b[1..] {
        assert a == [a[0]] + a[1..] && b == [b[0]] + b[1..];
      }
    }
  }

  lemma LtIrreflexive(a: Value)
    ensures !Lt(a, a)
  {
    if a.Str? {
      StrLtIrreflexive(a.s);
    }
  }

  lemma LtTransitive(a: Value, b: Value, c: Value)
    requires Lt(a, b) && Lt(b, c)
    ensures Lt(a, c)
  {
    if a.Str? && b.Str? && c.Str? {
      StrLtTransitive(a.s, b.s, c.s);
    }
  }

  lemma LtTotal(a: Value, b: Value)
    ensures Lt(a, b) || a == b || Lt(b, a)
  {
    if a.Str? && b.Str? {
      StrLtTotal(a.s, b.s);
    }
  }

  lemma LtAsymmetric(a: Value, b: Value)
    requires Lt(a, b)
    ensures !Lt(b, a) && a != b
  {
    LtIrreflexive(a);
    if Lt(b, a) {
      LtTransitive(a, b, a);
    }
  }

  lemma LeTransitive(a: Value, b: Value, c: Value)
    requires Le(a, b) && Le(b, c)
    ensures Le(a, c)
  {
    if Lt(a, b) && Lt(b, c) {
      LtTransitive(a, b, c);
    }
  }

  lemma LeLtTransitive(a: Value, b: Value, c: Value)
    requires Le(a, b) && Lt(b, c)
    ensures Lt(a, c)
  {
    if a != b {
      LtTransitive(a, b, c);
    }
  }

  lemma LtLeTransitive(a: Value, b: Value, c: Value)
    requires Lt(a, b) && Le(b, c)
    ensures Lt(a, c)
  {
    if b != c {
      LtTransitive(a, b, c);
    }
  }

  /** `Le` and `Lt` are complementary: exactly one of `a <= b` and `b < a` holds. */
  lemma NotLtIsLe(a: Value, b: Value)
    ensures !Lt(b, a) <==> Le(a, b)
  {
    LtTotal(a, b);
    if Lt(b, a) {
      LtAsymmetric(b, a);
    }
  }
}
