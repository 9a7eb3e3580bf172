/** Small vocabulary shared by the models: options, first-match search and counting. */
module Util {
  datatype Option<+T> = None | Some(value: T)

  /** A thread, by its id. */
  type Tid = nat

  const IsMarked: bool -> bool := (b: bool) => b
  const IsClear: bool -> bool := (b: bool) => !b

  /** The first index from `i` on whose element satisfies `p`, or `|s|`: what a scan with `break` leaves in its
      counter. */
  function Find<T>(s: seq<T>, p: T -> bool, i: nat := 0): (k: nat)
    requires i <= |s|
    ensures i <= k <= |s|
    ensures k < |s| ==> p(s[k])
    ensures forall m :: i <= m < k ==> !p(s[m])
    decreases |s| - i
  {
    if i == |s| || p(s[i]) then i else Find(s, p, i + 1)
  }

  /** A scan that stopped at `k` found what Find finds. */
  lemma FindIs<T>(s: seq<T>, p: T -> bool, k: nat)
    requires k <= |s| && (k < |s| ==> p(s[k]))
    requires forall m :: 0 <= m < k ==> !p(s[m])
    ensures Find(s, p) == k
  {
  }

  lemma FindFromIs<T>(s: seq<T>, p: T -> bool, i: nat, k: nat)
    requires i <= k <= |s| && (k < |s| ==> p(s[k]))
    requires forall m :: i <= m < k ==> !p(s[m])
    ensures Find(s, p, i) == k
  {
  }

  /** The elements that satisfy `p`, in order. */
  function Filter<T>(s: seq<T>, p: T -> bool): (r: seq<T>)
    ensures forall x :: x in r ==> x in s && p(x)
    ensures forall x :: x in s && p(x) ==> x in r
  {
    if s == [] then [] else (if p(s[0]) then [s[0]] else []) + Filter(s[1..], p)
  }

  lemma {:induction false} FilterConcat<T>(a: seq<T>, b: seq<T>, p: T -> bool)
    ensures Filter(a + b, p) == Filter(a, p) + Filter(b, p)
  {
    if a == [] {
      assert a + b == b;
    } else {
      assert (a + b)[1..] == a[1..] + b;
      FilterConcat(a[1..], b, p);
    }
  }

  lemma {:induction false} FilterNone<T>(s: seq<T>, p: T -> bool)
    requires forall x :: x in s ==> !p(x)
    ensures Filter(s, p) == []
  {
    if s != [] {
      FilterNone(s[1..], p);
    }
  }

  function Without<T>(s: seq<T>, i: nat): seq<T>
    requires i < |s|
  {
    s[..i] + s[i + 1..]
  }

  /** Taking out an element that does not match leaves the filtered sequence as it was. */
  lemma {:induction false} FilterWithoutOther<T>(s: seq<T>, p: T -> bool, i: nat)
    requires i < |s| && !p(s[i])
    ensures Filter(Without(s, i), p) == Filter(s, p)
  {
    if i == 0 {
      assert Without(s, i) == s[1..];
    } else {
      assert Without(s, i)[0] == s[0] && Without(s, i)[1..] == Without(s[1..], i - 1);
      FilterWithoutOther(s[1..], p, i - 1);
    }
  }

  /** Taking out the first match takes the head off the filtered sequence. */
  lemma {:induction false} FilterWithoutFirst<T>(s: seq<T>, p: T -> bool, i: nat)
    requires i < |s| && p(s[i]) && forall m :: 0 <= m < i ==> !p(s[m])
    ensures Filter(s, p) == [s[i]] + Filter(Without(s, i), p)
  {
    if i == 0 {
      assert Without(s, i) == s[1..];
    } else {
      assert Without(s, i)[0] == s[0] && Without(s, i)[1..] == Without(s[1..], i - 1);
      FilterWithoutFirst(s[1..], p, i - 1);
    }
  }

  lemma {:induction false} FilterCongruence<T>(s: seq<T>, p: T -> bool, q: T -> bool)
    requires forall x :: x in s ==> (p(x) <==> q(x))
    ensures Filter(s, p) == Filter(s, q)
  {
    if s != [] {
      FilterCongruence(s[1..], p, q);
    }
  }

  ghost predicate NoDuplicates<T>(s: seq<T>) {
    forall i, j :: 0 <= i < j < |s| ==> s[i] != s[j]
  }

  lemma {:induction false} FilterNoDuplicates<T>(s: seq<T>, p: T -> bool)
    requires NoDuplicates(s)
    ensures NoDuplicates(Filter(s, p))
  {
    if s != [] {
      NoDuplicatesTail(s);
      FilterNoDuplicates(s[1..], p);
    }
  }

  lemma {:induction false} SeqSetCardinality<T>(s: seq<T>)
    requires NoDuplicates(s)
    ensures |set x | x in s| == |s|
  {
    if s == [] {
      assert (set x | x in s) == {};
    } else {
      NoDuplicatesTail(s);
      SeqSetCardinality(s[1..]);
      assert (set x | x in s) == {s[0]} + set x | x in s[1..];
    }
  }

  lemma NoDuplicatesWithout<T>(s: seq<T>, i: nat)
    requires NoDuplicates(s) && i < |s|
    ensures NoDuplicates(Without(s, i))
    ensures s[i] !in Without(s, i)
    ensures forall x :: x in s && x != s[i] ==> x in Without(s, i)
    ensures forall x :: x in Without(s, i) ==> x in s
  {
    forall x | x in s && x != s[i]
      ensures x in Without(s, i)
    {
      var k :| 0 <= k < |s| && s[k] == x;
      assert Without(s, i)[if k < i then k else k - 1] == x;
    }
  }

  lemma NoDuplicatesSnoc<T>(s: seq<T>, x: T)
    requires NoDuplicates(s) && x !in s
    ensures NoDuplicates(s + [x])
    ensures forall y :: y in s ==> y in s + [x]
    ensures forall y :: y in s + [x] ==> y in s || y == x
  {
  }

  lemma NoDuplicatesTail<T>(s: seq<T>)
    requires NoDuplicates(s) && s != []
    ensures NoDuplicates(s[1..]) && s[0] !in s[1..]
    ensures forall x :: x in s && x != s[0] ==> x in s[1..]
    ensures forall x :: x in s[1..] ==> x in s
  {
  }

  /** How many elements satisfy `p`. */
  function Count<T>(s: seq<T>, p: T -> bool): (n: nat)
    ensures n <= |s|
  {
    if s == [] then 0 else Count(s[..|s| - 1], p) + (if p(s[|s| - 1]) then 1 else 0)
  }

  lemma {:induction false} CountUpdate<T>(s: seq<T>, p: T -> bool, i: nat, x: T)
    requires i < |s|
    ensures Count(s[i := x], p) == Count(s, p) - (if p(s[i]) then 1 else 0) + (if p(x) then 1 else 0)
  {
    var n := |s| - 1;
    if i == n {
      assert s[i := x][..n] == s[..n];
    } else {
      assert s[i := x][..n] == s[..n][i := x];
      CountUpdate(s[..n], p, i, x);
    }
  }

  /** A count is full exactly when the scan for a counter-example finds none. */
  lemma {:induction false} CountFull<T>(s: seq<T>, p: T -> bool)
    ensures Count(s, p) == |s| <==> forall i :: 0 <= i < |s| ==> p(s[i])
  {
    if s != [] {
      CountFull(s[..|s| - 1], p);
    }
  }

  lemma {:induction false} CountNone<T>(s: seq<T>, p: T -> bool)
    ensures Count(s, p) == 0 <==> forall i :: 0 <= i < |s| ==> !p(s[i])
  {
    if s != [] {
      CountNone(s[..|s| - 1], p);
    }
  }

  /** The indices of the elements that satisfy `p`. */
  ghost function Where<T>(s: seq<T>, p: T -> bool): set<nat> {
    set i: nat | i < |s| && p(s[i])
  }

  lemma {:induction false} CountIsCardinality<T>(s: seq<T>, p: T -> bool)
    ensures |Where(s, p)| == Count(s, p)
  {
    if s == [] {
      assert Where(s, p) == {};
    } else {
      var n := |s| - 1;
      CountIsCardinality(s[..n], p);
      assert Where(s, p) == Where(s[..n], p) + (if p(s[n]) then {n} else {});
    }
  }

  /** An injective map has as many values as keys. */
  lemma {:induction false} InjectiveCardinality<K, V>(m: map<K, V>)
    requires forall a, b :: a in m && b in m && m[a] == m[b] ==> a == b
    ensures |m.Keys| == |m.Values|
  {
    if m.Keys == {} {
      assert m.Values == {};
    } else {
      var k :| k in m.Keys;
      var rest := m - {k};
      InjectiveCardinality(rest);
      assert m.Keys == rest.Keys + {k};
      assert m.Values == rest.Values + {m[k]};
    }
  }

  /** A set of numbers below `n` has at most `n` elements. */
  lemma {:induction false} BoundedCardinality(a: set<nat>, n: nat)
    requires forall x :: x in a ==> x < n
    ensures |a| <= n
  {
    if n == 0 {
      assert a == {};
    } else {
      BoundedCardinality(a - {n - 1}, n - 1);
    }
  }

  lemma SubsetCardinality<T>(a: set<T>, b: set<T>)
    requires a <= b
    ensures |a| <= |b|
  {
    assert b == a + (b - a);
  }

  lemma {:induction false} RangeCardinality(n: nat, a: set<nat>)
    requires forall k :: 0 <= k < n ==> k in a
    ensures n <= |a|
  {
    if n > 0 {
      RangeCardinality(n - 1, a - {n - 1});
    }
  }
}
