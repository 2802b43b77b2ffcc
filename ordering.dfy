/**
 * Descending listing of finite sets, and the order the translation table sorts languages by:
 * strings compared code point by code point (the C collation).  A finite set is listed in
 * descending order by repeatedly taking its greatest element.
 */
module Ordering {

  /** `lt` is a strict total order. */
  ghost predicate StrictTotal<T(!new)>(lt: (T, T) -> bool) {
    (forall a :: !lt(a, a)) &&
    (forall a, b, c :: lt(a, b) && lt(b, c) ==> lt(a, c)) &&
    (forall a, b :: a != b ==> lt(a, b) || lt(b, a))
  }

  /** `m` is above every other member of `s`. */
  predicate IsGreatest<T(==)>(m: T, s: set<T>, lt: (T, T) -> bool) {
    m in s && forall x :: x in s && x != m ==> lt(x, m)
  }

  /** Each element of `r` is above every later one. */
  ghost predicate Descending<T>(r: seq<T>, lt: (T, T) -> bool) {
    forall i, j :: 0 <= i < j < |r| ==> lt(r[j], r[i])
  }

  lemma {:induction false} GreatestExists<T(!new)>(s: set<T>, lt: (T, T) -> bool)
    requires s != {} && StrictTotal(lt)
    ensures exists m :: IsGreatest(m, s, lt)
    decreases |s|
  {
    var x :| x in s;
    if s != {x} {
      GreatestExists(s - {x}, lt);
      var m :| IsGreatest(m, s - {x}, lt);
      if lt(x, m) {
        assert IsGreatest(m, s, lt);
      } else {
        assert IsGreatest(x, s, lt);
      }
    } else {
      assert IsGreatest(x, s, lt);
    }
  }

  /** The greatest member of a non-empty set. */
  function Greatest<T(!new)>(s: set<T>, lt: (T, T) -> bool): (m: T)
    requires s != {} && StrictTotal(lt)
    ensures IsGreatest(m, s, lt)
  {
    GreatestExists(s, lt);
    var m :| IsGreatest(m, s, lt);
    m
  }

  /** The members of `s`, greatest first. */
  function SortDescending<T(!new)>(s: set<T>, lt: (T, T) -> bool): (r: seq<T>)
    requires StrictTotal(lt)
    ensures |r| == |s|
    ensures forall x :: x in r <==> x in s
    ensures Descending(r, lt)
    decreases |s|
  {
    if s == {} then []
    else
      var m := Greatest(s, lt);
      [m] + SortDescending(s - {m}, lt)
  }

  // ---------------------------------------------------------------------------
  // The two orders

  /** Code-point lexicographic order: a proper prefix comes first. */
  predicate StrLess(a: string, b: string)
    decreases |a|
  {
    |b| > 0 && (|a| == 0 || a[0] < b[0] || (a[0] == b[0] && StrLess(a[1..], b[1..])))
  }

  lemma {:induction false} StrLessIrreflexive(a: string)
    ensures !StrLess(a, a)
    decreases |a|
  {
    if |a| > 0 {
      StrLessIrreflexive(a[1..]);
    }
  }

  lemma {:induction false} StrLessTransitive(a: string, b: string, c: string)
    requires StrLess(a, b) && StrLess(b, c)
    ensures StrLess(a, c)
    decreases |a|
  {
    if |a| > 0 && a[0] == b[0] && b[0] == c[0] {
      StrLessTransitive(a[1..], b[1..], c[1..]);
    }
  }

  lemma {:induction false} StrLessTotal(a: string, b: string)
    requires a != b
    ensures StrLess(a, b) || StrLess(b, a)
    decreases |a|
  {
    if |a| > 0 && |b| > 0 && a[0] == b[0] {
      assert a[1..] != b[1..] by {
        assert a == [a[0]] + a[1..] && b == [b[0]] + b[1..];
      }
      StrLessTotal(a[1..], b[1..]);
    }
  }

  lemma StrLessIsStrictTotal()
    ensures StrictTotal(StrLess)
  {
    forall a ensures !StrLess(a, a) {
      StrLessIrreflexive(a);
    }
    forall a, b, c | StrLess(a, b) && StrLess(b, c) ensures StrLess(a, c) {
      StrLessTransitive(a, b, c);
    }
    forall a, b | a != b ensures StrLess(a, b) || StrLess(b, a) {
      StrLessTotal(a, b);
    }
  }
}
