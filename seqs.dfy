/**
 * Python list comprehensions of the form `[p for p in s if cond(p)]`, and
 * the positional facts the scraper's "first match" / "second match" rules
 * rely on.
 */
module Seqs {

  /** The elements of `s` that satisfy `p`, in their original order. */
  function Filter<T>(p: T -> bool, s: seq<T>): (r: seq<T>)
    ensures |r| <= |s|
    ensures forall k :: 0 <= k < |r| ==> p(r[k])
    decreases |s|
  {
    if s == [] then []
    else Filter(p, s[..|s| - 1]) + (if p(s[|s| - 1]) then [s[|s| - 1]] else [])
  }

  lemma {:induction false} FilterAppend<T>(p: T -> bool, a: seq<T>, b: seq<T>)
    ensures Filter(p, a + b) == Filter(p, a) + Filter(p, b)
    decreases |b|
  {
    if b == [] {
      assert a + b == a;
    } else {
      var b' := b[..|b| - 1];
      assert (a + b)[..|a + b| - 1] == a + b';
      assert (a + b)[|a + b| - 1] == b[|b| - 1];
      FilterAppend(p, a, b');
    }
  }

  /** Nothing survives the filter exactly when no element satisfies `p`. */
  lemma {:induction false} FilterEmpty<T>(p: T -> bool, s: seq<T>)
    ensures Filter(p, s) == [] <==> forall i :: 0 <= i < |s| ==> !p(s[i])
    decreases |s|
  {
    if s != [] {
      var s' := s[..|s| - 1];
      FilterEmpty(p, s');
      assert forall i :: 0 <= i < |s'| ==> s'[i] == s[i];
    }
  }

  /**
   * An element satisfying `p` that has exactly `k` satisfying elements
   * before it is the `k`-th (0-based) element of the filtered list.
   */
  lemma FilterAt<T>(p: T -> bool, s: seq<T>, i: nat)
    requires i < |s| && p(s[i])
    ensures |Filter(p, s[..i])| < |Filter(p, s)|
    ensures Filter(p, s)[|Filter(p, s[..i])|] == s[i]
  {
    assert s == s[..i + 1] + s[i + 1..];
    FilterAppend(p, s[..i + 1], s[i + 1..]);
    assert s[..i + 1][..i] == s[..i];
  }

  /** The first element satisfying `p` heads the filtered list. */
  lemma FilterFirst<T>(p: T -> bool, s: seq<T>, i: nat)
    requires i < |s| && p(s[i])
    requires forall k :: 0 <= k < i ==> !p(s[k])
    ensures Filter(p, s) != [] && Filter(p, s)[0] == s[i]
  {
    FilterEmpty(p, s[..i]);
    FilterAt(p, s, i);
  }

  /** The filtered list splits around a satisfying element. */
  lemma FilterSplitAt<T>(p: T -> bool, s: seq<T>, i: nat)
    requires i < |s| && p(s[i])
    ensures Filter(p, s) == Filter(p, s[..i]) + [s[i]] + Filter(p, s[i + 1..])
  {
    var a, x, b := s[..i], s[i], s[i + 1..];
    assert s == (a + [x]) + b;
    calc {
      Filter(p, s);
      { FilterAppend(p, a + [x], b); }
      Filter(p, a + [x]) + Filter(p, b);
      { FilterAppend(p, a, [x]); }
      Filter(p, a) + Filter(p, [x]) + Filter(p, b);
      { FilterSingleton(p, x); }
      Filter(p, a) + [x] + Filter(p, b);
    }
  }

  lemma FilterSingleton<T>(p: T -> bool, x: T)
    ensures Filter(p, [x]) == if p(x) then [x] else []
  {
    assert [x][..0] == [];
  }

  /**
   * Filtering twice, first by `p` and then by `q`, keeps as its first
   * element the first element satisfying both; if there is none, nothing.
   */
  lemma FilterTwiceFirst<T>(p: T -> bool, q: T -> bool, s: seq<T>, i: nat)
    requires i < |s| && p(s[i]) && q(s[i])
    requires forall k :: 0 <= k < i ==> !(p(s[k]) && q(s[k]))
    ensures Filter(q, Filter(p, s)) != [] && Filter(q, Filter(p, s))[0] == s[i]
  {
    var pre := Filter(p, s[..i]);
    FilterTwiceNone(p, q, s[..i]);
    FilterSplitAt(p, s, i);
    var f := Filter(p, s);
    assert f[|pre|] == s[i] && f[..|pre|] == pre;
    FilterSplitAt(q, f, |pre|);
  }

  lemma FilterTwiceNone<T>(p: T -> bool, q: T -> bool, s: seq<T>)
    requires forall k :: 0 <= k < |s| ==> !(p(s[k]) && q(s[k]))
    ensures Filter(q, Filter(p, s)) == []
  {
    var f := Filter(p, s);
    FilterSubset(p, s);
    forall j | 0 <= j < |f| ensures !q(f[j]) {
      assert f[j] in s;
    }
    FilterEmpty(q, f);
  }

  /** Every element that survives the filter comes from the input. */
  lemma {:induction false} FilterSubset<T>(p: T -> bool, s: seq<T>)
    ensures forall x :: x in Filter(p, s) ==> x in s
    decreases |s|
  {
    if s != [] {
      var s' := s[..|s| - 1];
      FilterSubset(p, s');
      forall x | x in Filter(p, s) ensures x in s {
        if x in Filter(p, s') {
          var j :| 0 <= j < |s'| && s'[j] == x;
          assert s[j] == x;
        } else {
          assert x == s[|s| - 1];
        }
      }
    }
  }
}
