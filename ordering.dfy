/**
 * Python's ordering of `str` values (lexicographic by code point, a proper
 * prefix first) and `sorted()` of a set of strings.
 */
module Ordering {

  /** Python's `a <= b` on strings. */
  predicate LessEq(a: string, b: string)
    decreases |a|
  {
    a == [] || (b != [] && (a[0] < b[0] || (a[0] == b[0] && LessEq(a[1..], b[1..]))))
  }

  lemma {:induction false} LessEqAntisymmetric(a: string, b: string)
    requires LessEq(a, b) && LessEq(b, a)
    ensures a == b
    decreases |a|
  {
    if a != [] {
      LessEqAntisymmetric(a[1..], b[1..]);
      assert a == [a[0]] + a[1..] && b == [b[0]] + b[1..];
    }
  }

  lemma {:induction false} LessEqTransitive(a: string, b: string, c: string)
    requires LessEq(a, b) && LessEq(b, c)
    ensures LessEq(a, c)
    decreases |a|
  {
    if a != [] && a[0] == b[0] && b[0] == c[0] {
      LessEqTransitive(a[1..], b[1..], c[1..]);
    }
  }

  lemma {:induction false} LessEqTotal(a: string, b: string)
    ensures LessEq(a, b) || LessEq(b, a)
    decreases |a|
  {
    if a != [] && b != [] && a[0] == b[0] {
      LessEqTotal(a[1..], b[1..]);
    }
  }

  /** `m` is the least element of `xs`. */
  predicate IsLeast(m: string, xs: set<string>) {
    m in xs && forall y :: y in xs ==> LessEq(m, y)
  }

  lemma LeastExists(xs: set<string>)
    requires xs != {}
    ensures exists m :: IsLeast(m, xs)
    decreases |xs|
  {
    var x :| x in xs;
    if xs - {x} == {} {
      assert xs == {x};
      LessEqTotal(x, x);
      assert IsLeast(x, xs);
    } else {
      LeastExists(xs - {x});
      var m :| IsLeast(m, xs - {x});
      LessEqTotal(x, m);
      if LessEq(x, m) {
        forall y | y in xs ensures LessEq(x, y) {
          if y != x {
            LessEqTransitive(x, m, y);
          } else {
            LessEqTotal(x, x);
          }
        }
        assert IsLeast(x, xs);
      } else {
        assert IsLeast(m, xs);
      }
    }
  }

  lemma LeastUnique(xs: set<string>)
    ensures forall m, m' :: IsLeast(m, xs) && IsLeast(m', xs) ==> m == m'
  {
    forall m, m' | IsLeast(m, xs) && IsLeast(m', xs) ensures m == m' {
      LessEqAntisymmetric(m, m');
    }
  }

  /** Strictly increasing: sorted and without repetitions. */
  predicate StrictlySorted(s: seq<string>) {
    forall i, j :: 0 <= i < j < |s| ==> LessEq(s[i], s[j]) && s[i] != s[j]
  }

  /** Python's `sorted(xs)` for a set of strings. */
  function SortedSet(xs: set<string>): (r: seq<string>)
    ensures StrictlySorted(r)
    ensures |r| == |xs|
    ensures forall x :: x in r <==> x in xs
    decreases |xs|
  {
    if xs == {} then []
    else
      LeastExists(xs);
      LeastUnique(xs);
      var m :| IsLeast(m, xs);
      var rest := SortedSet(xs - {m});
      assert forall k :: 0 <= k < |rest| ==> rest[k] in xs - {m};
      [m] + rest
  }
}
