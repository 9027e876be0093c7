/** Sequence helpers shared by the models (Java's `Collections.reverse` and duplicate-freedom). */
module Sequences {

  /** The elements of `s` in the opposite order. */
  function Reversed<T>(s: seq<T>): (r: seq<T>)
    ensures |r| == |s|
  {
    if s == [] then [] else Reversed(s[1..]) + [s[0]]
  }

  lemma {:induction false} ReversedAt<T>(s: seq<T>, k: nat)
    requires k < |s|
    ensures Reversed(s)[k] == s[|s| - 1 - k]
  {
    if k < |s| - 1 {
      ReversedAt(s[1..], k);
    }
  }

  lemma ReversedIndex<T>(s: seq<T>)
    ensures forall k :: 0 <= k < |s| ==> Reversed(s)[k] == s[|s| - 1 - k]
  {
    forall k | 0 <= k < |s|
      ensures Reversed(s)[k] == s[|s| - 1 - k]
    {
      ReversedAt(s, k);
    }
  }

  /** Reversing after appending one element puts that element first. */
  lemma {:induction false} ReversedSnoc<T>(s: seq<T>, x: T)
    ensures Reversed(s + [x]) == [x] + Reversed(s)
  {
    ReversedIndex(s + [x]);
    ReversedIndex(s);
    assert Reversed(s + [x]) == [x] + Reversed(s);
  }

  predicate NoDuplicates<T(==)>(s: seq<T>)
  {
    forall i, j :: 0 <= i < j < |s| ==> s[i] != s[j]
  }

  /** Some member of a non-empty set. */
  lemma ElementOf<T>(s: set<T>) returns (x: T)
    requires s != {}
    ensures x in s
  {
    x :| x in s;
  }

  /** The members of a finite set, listed once each in some order. */
  ghost function SeqOf<T(!new)>(s: set<T>): (r: seq<T>)
    ensures NoDuplicates(r) && |r| == |s|
    ensures forall x :: x in r <==> x in s
    decreases |s|
  {
    if s == {} then []
    else
      var x :| x in s;
      [x] + SeqOf(s - {x})
  }

  /** The elements a sequence lists. */
  function Members<E>(q: seq<E>): set<E>
  {
    set x | x in q
  }

  lemma {:induction false} MembersOfDistinct<E>(q: seq<E>)
    requires NoDuplicates(q)
    ensures |Members(q)| == |q|
  {
    if q != [] {
      assert NoDuplicates(q[1..]) by {
        forall i, j | 0 <= i < j < |q[1..]|
          ensures q[1..][i] != q[1..][j]
        {
          assert q[1..][i] == q[i + 1] && q[1..][j] == q[j + 1];
        }
      }
      MembersOfDistinct(q[1..]);
      assert q[0] !in Members(q[1..]);
      assert Members(q) == {q[0]} + Members(q[1..]);
    }
  }

  lemma MembersSnoc<E>(q: seq<E>, x: E)
    ensures Members(q + [x]) == Members(q) + {x}
  {
  }

  /** A subset is no larger than its superset. */
  lemma SubsetCardinality<T>(a: set<T>, b: set<T>)
    requires a <= b
    ensures |a| <= |b|
  {
    assert b == a + (b - a);
  }

  /** Growing a subset of `u` strictly leaves strictly fewer elements of `u` outside it. */
  lemma RemainderShrinks<T>(u: set<T>, a: set<T>, b: set<T>)
    requires a < b && b <= u
    ensures |u - b| < |u - a|
  {
    assert b - a != {};
    assert u - a == (u - b) + (b - a);
  }

  /** One more step of a loop over `s`: the prefix grows by `s[j]` and the rest loses it. */
  lemma NextIndex<T>(s: seq<T>, j: nat)
    requires j < |s|
    ensures s[..j + 1] == s[..j] + [s[j]] && s[j..][1..] == s[j + 1..]
  {
  }
}
