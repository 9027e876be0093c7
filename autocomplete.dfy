/**
 * `TreeSetAutocomplete`: terms kept in a sorted set under lexicographic order, and
 * prefix queries answered by walking the tail of the set from the ceiling of the prefix.
 */
module Autocomplete {
  import opened Wrappers

  /**
   * Lexicographic order by code point, standing in for `CharSequence.compare(a, b) <= 0`:
   * the first differing character decides; when one is a prefix of the other, the shorter
   * comes first. `char` is a Unicode scalar value, so for characters outside the Basic
   * Multilingual Plane this differs from Java's comparison of UTF-16 code units.
   */
  predicate LexLeq(a: string, b: string)
    decreases |a|
  {
    if a == [] then true
    else if b == [] then false
    else if a[0] != b[0] then a[0] < b[0]
    else LexLeq(a[1..], b[1..])
  }

  predicate LexLess(a: string, b: string)
  {
    LexLeq(a, b) && a != b
  }

  /** `Autocomplete.isPrefixOf(prefix, term)`: the term starts with the prefix. */
  predicate IsPrefixOf(prefix: string, term: string)
  {
    prefix <= term
  }

  lemma {:induction false} LexTotal(a: string, b: string)
    ensures LexLeq(a, b) || LexLeq(b, a)
    decreases |a|
  {
    if a != [] && b != [] && a[0] == b[0] {
      LexTotal(a[1..], b[1..]);
    }
  }

  lemma {:induction false} LexAntisymmetric(a: string, b: string)
    requires LexLeq(a, b) && LexLeq(b, a)
    ensures a == b
    decreases |a|
  {
    if a != [] {
      LexAntisymmetric(a[1..], b[1..]);
      assert a == [a[0]] + a[1..] && b == [b[0]] + b[1..];
    }
  }

  lemma {:induction false} LexTransitive(a: string, b: string, c: string)
    requires LexLeq(a, b) && LexLeq(b, c)
    ensures LexLeq(a, c)
    decreases |a|
  {
    if a != [] && a[0] == b[0] && b[0] == c[0] {
      LexTransitive(a[1..], b[1..], c[1..]);
    }
  }

  /** A prefix never sorts after the terms it begins. */
  lemma {:induction false} PrefixIsBelow(q: string, t: string)
    requires IsPrefixOf(q, t)
    ensures LexLeq(q, t)
    decreases |q|
  {
    if q != [] {
      PrefixIsBelow(q[1..], t[1..]);
    }
  }

  /**
   * The terms that start with `q` form one contiguous run of the sorted order: anything
   * between `q` and such a term starts with `q` too.
   */
  lemma {:induction false} PrefixRunIsContiguous(q: string, s: string, t: string)
    requires IsPrefixOf(q, t) && LexLeq(q, s) && LexLeq(s, t)
    ensures IsPrefixOf(q, s)
    decreases |q|
  {
    if q != [] {
      assert s != [] && t != [];
      assert s[0] == q[0];
      PrefixRunIsContiguous(q[1..], s[1..], t[1..]);
      assert s == [s[0]] + s[1..];
    }
  }

  /** Every finite non-empty set of terms has a least element: what `TreeSet` iteration visits first. */
  lemma LeastExists(s: set<string>)
    requires s != {}
    ensures exists m :: m in s && forall t :: t in s ==> LexLeq(m, t)
  {
    var m := LeastOf(s);
  }

  lemma {:induction false} LeastOf(s: set<string>) returns (m: string)
    requires s != {}
    ensures m in s && forall t :: t in s ==> LexLeq(m, t)
    decreases |s|
  {
    var x :| x in s;
    LexTotal(x, x);
    var rest := s - {x};
    if rest == {} {
      assert s == {x};
      m := x;
    } else {
      var y := LeastOf(rest);
      LexTotal(x, y);
      if LexLeq(x, y) {
        forall t | t in rest
          ensures LexLeq(x, t)
        {
          LexTransitive(x, y, t);
        }
        m := x;
      } else {
        m := y;
      }
    }
  }

  predicate StrictlyAscending(terms: seq<string>)
  {
    forall i, j :: 0 <= i < j < |terms| ==> LexLess(terms[i], terms[j])
  }

  /** Appending the least of the terms still to visit keeps the result ascending and below the rest. */
  lemma TakeLeast(result: seq<string>, remaining: set<string>, term: string)
    requires StrictlyAscending(result)
    requires forall i, t :: 0 <= i < |result| && t in remaining ==> LexLess(result[i], t)
    requires term in remaining && forall t :: t in remaining - {term} ==> LexLess(term, t)
    ensures StrictlyAscending(result + [term])
    ensures forall i, t :: 0 <= i < |result| + 1 && t in remaining - {term} ==> LexLess((result + [term])[i], t)
  {
    var r := result + [term];
    forall i, j | 0 <= i < j < |r|
      ensures LexLess(r[i], r[j])
    {
      if j == |result| {
        assert r[i] == result[i];
      } else {
        assert r[i] == result[i] && r[j] == result[j];
      }
    }
  }

  class TreeSetAutocomplete {
    /** The `TreeSet` contents; its order is `LexLeq`, under which equal terms collapse. */
    var terms: set<string>

    constructor ()
      ensures terms == {}
    {
      terms := {};
    }

    /** `set.addAll(terms)`: set union. */
    method AddAll(newTerms: seq<string>)
      modifies this
      ensures terms == old(terms) + set t | t in newTerms
    {
      terms := terms + set t | t in newTerms;
    }

    /**
     * All stored terms that start with `prefix`, in ascending order; a null or empty
     * prefix matches nothing.
     */
    method AllMatches(prefix: Option<string>) returns (result: seq<string>)
      ensures prefix.None? || prefix.value == [] ==> result == []
      ensures prefix.Some? && prefix.value != [] ==>
        && (forall t :: t in result ==> t in terms && IsPrefixOf(prefix.value, t))
        && (forall t :: t in terms && IsPrefixOf(prefix.value, t) ==> t in result)
      ensures StrictlyAscending(result)
    {
      result := [];
      if prefix.None? || |prefix.value| == 0 {
        return;
      }
      var q := prefix.value;
      var atLeast := set t | t in terms && LexLeq(q, t);
      forall t | t in terms && IsPrefixOf(q, t)
        ensures t in atLeast
      {
        PrefixIsBelow(q, t);
      }
      if atLeast == {} {
        // no ceiling: every stored term sorts before the prefix
        return;
      }
      LeastExists(atLeast);
      var start :| start in atLeast && forall t :: t in atLeast ==> LexLeq(start, t);
      var tail := set t | t in terms && LexLeq(start, t);
      var remaining := tail;
      while remaining != {}
        invariant remaining <= tail
        invariant forall t :: t in tail && t !in remaining ==> t in result
        invariant forall t :: t in result ==> t in tail && IsPrefixOf(q, t) && t !in remaining
        invariant forall i, t :: 0 <= i < |result| && t in remaining ==> LexLess(result[i], t)
        invariant StrictlyAscending(result)
        decreases |remaining|
      {
        LeastExists(remaining);
        var term :| term in remaining && forall t :: t in remaining ==> LexLeq(term, t);
        if IsPrefixOf(q, term) {
          forall t | t in remaining - {term}
            ensures LexLess(term, t)
          {
          }
          TakeLeast(result, remaining, term);
          result := result + [term];
          remaining := remaining - {term};
        } else {
          assert LexLeq(q, term) by {
            LexTransitive(q, start, term);
          }
          forall t | t in terms && IsPrefixOf(q, t)
            ensures t in result
          {
            if t in remaining {
              PrefixRunIsContiguous(q, term, t);
            }
          }
          return;
        }
      }
    }
  }
}
