/** Small shared vocabulary. */
module Base {
  datatype Option<+T> = None | Some(value: T)

  /** A byte, written as the character with that code. Go strings and file contents are sequences of these. */
  type Byte = c: char | c as int < 256

  function Min(a: int, b: int): int { if a <= b then a else b }

  function Zeros(n: nat): seq<Byte> {
    seq(n, _ => 0 as char)
  }

  /** Every binding of `a` is a binding of `b`: `a` is `b` with some keys forgotten. */
  ghost predicate SubMap<K, V>(a: map<K, V>, b: map<K, V>) {
    forall k :: k in a ==> k in b && a[k] == b[k]
  }

  /** `s` without the elements in `gone`, in the same order: what list removals leave. */
  function Without<T(==)>(s: seq<T>, gone: set<T>): seq<T> {
    if s == [] then []
    else (if s[0] in gone then [] else [s[0]]) + Without(s[1..], gone)
  }

  ghost predicate Distinct<T>(s: seq<T>) {
    forall i, j :: 0 <= i < j < |s| ==> s[i] != s[j]
  }

  lemma {:induction false} WithoutMembers<T>(s: seq<T>, gone: set<T>)
    ensures forall x :: x in Without(s, gone) <==> x in s && x !in gone
  {
    if s == [] {
    } else {
      WithoutMembers(s[1..], gone);
      assert s == [s[0]] + s[1..];
    }
  }

  lemma {:induction false} WithoutDistinct<T>(s: seq<T>, gone: set<T>)
    requires Distinct(s)
    ensures Distinct(Without(s, gone))
  {
    if s == [] {
    } else {
      WithoutDistinct(s[1..], gone);
      WithoutMembers(s[1..], gone);
    }
  }

  lemma {:induction false} WithoutNothing<T>(s: seq<T>, gone: set<T>)
    requires forall x :: x in s ==> x !in gone
    ensures Without(s, gone) == s
  {
    if s == [] {
    } else {
      assert s[0] in s;
      WithoutNothing(s[1..], gone);
    }
  }

  lemma {:induction false} WithoutTwice<T>(s: seq<T>, a: set<T>, b: set<T>)
    ensures Without(Without(s, a), b) == Without(s, a + b)
  {
    if s == [] {
    } else {
      WithoutTwice(s[1..], a, b);
      var rest := Without(s[1..], a);
      if s[0] in a {
        assert Without(s, a) == rest;
      } else {
        assert Without(s, a) == [s[0]] + rest && ([s[0]] + rest)[1..] == rest;
      }
    }
  }

  lemma WithoutCons<T>(x: T, s: seq<T>, gone: set<T>)
    ensures Without([x] + s, gone) == if x in gone then Without(s, gone) else [x] + Without(s, gone)
  {
    assert ([x] + s)[1..] == s;
  }

  lemma {:induction false} WithoutConcat<T>(s: seq<T>, t: seq<T>, gone: set<T>)
    ensures Without(s + t, gone) == Without(s, gone) + Without(t, gone)
  {
    if s == [] {
      assert s + t == t;
    } else {
      assert (s + t)[1..] == s[1..] + t;
      WithoutConcat(s[1..], t, gone);
    }
  }

  /** Removing one element of a list without repetitions joins what stood before and after it. */
  lemma WithoutAt<T>(s: seq<T>, i: nat)
    requires i < |s| && Distinct(s)
    ensures Without(s, {s[i]}) == s[..i] + s[i + 1..]
  {
    var a, x, b := s[..i], s[i], s[i + 1..];
    assert s == a + ([x] + b);
    WithoutConcat(a, [x] + b, {x});
    assert Without([x] + b, {x}) == Without(b, {x}) by {
      assert ([x] + b)[1..] == b;
    }
    assert forall k :: 0 <= k < |b| ==> b[k] == s[i + 1 + k];
    WithoutNothing(a, {x});
    WithoutNothing(b, {x});
  }

  /** A sequence without repetitions that draws from a set is no longer than the set is large. */
  lemma {:induction false} DistinctFits<T>(s: seq<T>, from: set<T>)
    requires Distinct(s) && forall x :: x in s ==> x in from
    ensures |s| <= |from|
  {
    if s == [] {
    } else {
      assert s[0] in from;
      assert forall x :: x in s[1..] ==> x in s && x != s[0];
      DistinctFits(s[1..], from - {s[0]});
    }
  }

  lemma SmallerSet<T>(a: set<T>, b: set<T>)
    requires a <= b
    ensures |a| <= |b|
  {
    assert b == a + (b - a);
  }

  /** list.MoveToFront. */
  lemma MoveToFront<T>(s: seq<T>, x: T)
    requires Distinct(s) && x in s
    ensures Distinct([x] + Without(s, {x})) && |Without(s, {x})| == |s| - 1
    ensures forall y :: y in [x] + Without(s, {x}) <==> y in s
  {
    WithoutMembers(s, {x});
    WithoutDistinct(s, {x});
    var i: nat :| i < |s| && s[i] == x;
    WithoutAt(s, i);
  }

  lemma SliceOfSlice<T>(s: seq<T>, a: nat, b: nat, c: nat, d: nat)
    requires a <= b <= |s| && c <= d <= b - a
    ensures s[a..b][c..d] == s[a + c..a + d]
  {
    var x, y := s[a..b][c..d], s[a + c..a + d];
    assert |x| == |y|;
    assert forall i :: 0 <= i < |x| ==> x[i] == s[a + c + i] == y[i];
  }
}
