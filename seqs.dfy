/**
 * The Python list operations the record builders rely on: `list.remove`
 * (drop the first occurrence), and two ways of speaking about order.
 */
module Seqs {

  predicate Distinct<T(==)>(s: seq<T>) {
    forall i, j :: 0 <= i < j < |s| ==> s[i] != s[j]
  }

  /** The position of the first occurrence of x (`list.index`). */
  function FirstIndex<T(==)>(s: seq<T>, x: T): (k: nat)
    requires x in s
    ensures k < |s| && s[k] == x && x !in s[..k]
  {
    if s[0] == x then 0 else 1 + FirstIndex(s[1..], x)
  }

  /** `list.remove(x)`: s without its first occurrence of x. */
  function RemoveFirst<T(==)>(s: seq<T>, x: T): (r: seq<T>)
    requires x in s
    ensures |r| == |s| - 1
    ensures multiset(r) == multiset(s) - multiset{x}
  {
    var k := FirstIndex(s, x);
    assert s == s[..k] + [x] + s[k + 1..];
    s[..k] + s[k + 1..]
  }

  /** Removing the head: `list.remove` of the first element drops it. */
  lemma RemoveFirstHead<T>(s: seq<T>, x: T)
    requires s != [] && s[0] == x
    ensures RemoveFirst(s, x) == s[1..]
  {
    assert FirstIndex(s, x) == 0;
  }

  lemma RemoveFirstCons<T>(s: seq<T>, x: T)
    requires x in s && s[0] != x
    ensures RemoveFirst(s, x) == [s[0]] + RemoveFirst(s[1..], x)
  {
    var k := FirstIndex(s[1..], x);
    assert FirstIndex(s, x) == k + 1;
    assert s[..k + 1] == [s[0]] + s[1..][..k];
    assert s[k + 2..] == s[1..][k + 1..];
  }

  /** a can be obtained from b by deleting elements (order is kept). */
  predicate Subsequence<T(==)>(a: seq<T>, b: seq<T>)
    decreases |b|
  {
    a == [] ||
    (b != [] &&
      ((a[|a| - 1] == b[|b| - 1] && Subsequence(a[..|a| - 1], b[..|b| - 1])) ||
       Subsequence(a, b[..|b| - 1])))
  }

  /** The elements of s that do not occur in codes, in order. */
  function Unmentioned<T(==)>(s: seq<T>, codes: seq<T>): (r: seq<T>)
    ensures forall i :: 0 <= i < |r| ==> r[i] in s && r[i] !in codes
    ensures forall i :: 0 <= i < |s| && s[i] !in codes ==> s[i] in r
    ensures |r| <= |s|
  {
    if s == [] then []
    else (if s[0] in codes then [] else [s[0]]) + Unmentioned(s[1..], codes)
  }

  lemma {:induction false} UnmentionedNothing<T>(s: seq<T>, codes: seq<T>)
    requires forall x :: x in s ==> x !in codes
    ensures Unmentioned(s, codes) == s
  {
    if s != [] {
      UnmentionedNothing(s[1..], codes);
    }
  }

  lemma {:induction false} UnmentionedDistinct<T>(s: seq<T>, codes: seq<T>)
    requires Distinct(s)
    ensures Distinct(Unmentioned(s, codes))
  {
    if s != [] {
      UnmentionedDistinct(s[1..], codes);
      var rest := Unmentioned(s[1..], codes);
      var r := Unmentioned(s, codes);
      forall i, j | 0 <= i < j < |r| ensures r[i] != r[j] {
        if s[0] !in codes && i == 0 {
          assert r[j] == rest[j - 1];
          assert r[j] in rest;
        }
      }
    }
  }

  /** In a list without repeats, `remove` is the same as filtering the value out. */
  lemma {:induction false} RemoveFirstDistinct<T>(s: seq<T>, x: T)
    requires Distinct(s) && x in s
    ensures RemoveFirst(s, x) == Unmentioned(s, [x])
  {
    assert Distinct(s[1..]) by {
      forall i, j | 0 <= i < j < |s[1..]| ensures s[1..][i] != s[1..][j] {
        assert s[1..][i] == s[i + 1] && s[1..][j] == s[j + 1];
      }
    }
    if s[0] == x {
      assert forall y :: y in s[1..] ==> y !in [x] by {
        forall y | y in s[1..] ensures y != x {
          var j :| 0 <= j < |s[1..]| && s[1..][j] == y;
          assert s[j + 1] == y;
        }
      }
      UnmentionedNothing(s[1..], [x]);
    } else {
      RemoveFirstCons(s, x);
      RemoveFirstDistinct(s[1..], x);
    }
  }

  /** Filtering by a and then by b is filtering by a + b. */
  lemma {:induction false} UnmentionedTwice<T>(s: seq<T>, a: seq<T>, b: seq<T>)
    ensures Unmentioned(Unmentioned(s, a), b) == Unmentioned(s, a + b)
  {
    if s != [] {
      UnmentionedTwice(s[1..], a, b);
      assert s[0] in a + b <==> s[0] in a || s[0] in b;
      if s[0] !in a {
        var u := Unmentioned(s, a);
        assert u == [s[0]] + Unmentioned(s[1..], a);
        assert u[0] == s[0] && u[1..] == Unmentioned(s[1..], a);
      } else {
        assert Unmentioned(s, a) == [] + Unmentioned(s[1..], a) == Unmentioned(s[1..], a);
        assert Unmentioned(s, a + b) == [] + Unmentioned(s[1..], a + b);
      }
    }
  }

  /** Adding a value that is already absent leaves the filter unchanged. */
  lemma {:induction false} UnmentionedAbsent<T>(s: seq<T>, a: seq<T>, c: T)
    requires c !in Unmentioned(s, a)
    ensures Unmentioned(s, a + [c]) == Unmentioned(s, a)
  {
    if s != [] {
      UnmentionedAbsent(s[1..], a, c);
    }
  }
}
