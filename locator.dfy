/**
 * How `parse_products` finds its candidate product containers: three
 * tiers, each consulted only when every earlier one came back empty.
 * The element queries themselves (`find_all`, `select`, `find_parent`)
 * are inputs; what is modelled is the cascade and the de-duplication of
 * link parents.
 */
module Locator {
  import opened Wrappers

  /** The index of the first occurrence of `x` in `s`. */
  function FirstIndex<T(==)>(s: seq<T>, x: T): (k: nat)
    requires x in s
    ensures k < |s| && s[k] == x
    ensures forall j :: 0 <= j < k ==> s[j] != x
  {
    if s[0] == x then 0 else 1 + FirstIndex(s[1..], x)
  }

  ghost predicate NoDuplicates<T>(s: seq<T>) {
    forall a, b :: 0 <= a < b < |s| ==> s[a] != s[b]
  }

  /**
   * The link-parent tier: the `div` parent found for each product link in
   * turn (`None` where a link has none), each parent kept only the first
   * time it is seen.
   */
  function DistinctParents<T(==)>(parents: seq<Option<T>>): seq<T>
    decreases |parents|
  {
    if parents == [] then []
    else
      var kept := DistinctParents(parents[..|parents| - 1]);
      var p := parents[|parents| - 1];
      if p.Some? && p.value !in kept then kept + [p.value] else kept
  }

  /**
   * What the link-parent tier promises: it holds no parent twice, it holds
   * exactly the parents that were found, and it lists them in the order in
   * which each was first found.
   */
  ghost predicate IsLinkParentTier<T>(parents: seq<Option<T>>, cs: seq<T>) {
    && NoDuplicates(cs)
    && (forall a :: 0 <= a < |cs| ==> Some(cs[a]) in parents)
    && (forall k :: 0 <= k < |parents| && parents[k].Some? ==> parents[k].value in cs)
    && (forall a, b :: 0 <= a < b < |cs| ==>
          FirstIndex(parents, Some(cs[a])) < FirstIndex(parents, Some(cs[b])))
  }

  /** A first occurrence in a prefix is the first occurrence in the whole. */
  lemma {:induction false} FirstIndexPrefix<T>(s: seq<T>, n: nat, x: T)
    requires n <= |s| && x in s[..n]
    ensures x in s && FirstIndex(s, x) == FirstIndex(s[..n], x)
    decreases n
  {
    assert s[..n][0] == s[0];
    if s[0] != x {
      assert s[1..][..n - 1] == s[..n][1..];
      FirstIndexPrefix(s[1..], n - 1, x);
    }
  }

  lemma {:induction false} DistinctParentsIsLinkParentTier<T>(parents: seq<Option<T>>)
    ensures IsLinkParentTier(parents, DistinctParents(parents))
    decreases |parents|
  {
    if parents != [] {
      var n := |parents| - 1;
      var pre, p := parents[..n], parents[n];
      assert parents == pre + [p];
      var kept := DistinctParents(pre);
      DistinctParentsIsLinkParentTier(pre);
      if p.Some? && p.value !in kept {
        TierSnocAdd(pre, p.value, kept);
      } else {
        TierSnocSkip(pre, p, kept);
      }
    }
  }

  /** Appending a link keeps the first occurrence of an earlier parent. */
  lemma FirstIndexSnoc<T>(pre: seq<Option<T>>, p: Option<T>, x: Option<T>)
    requires x in pre
    ensures x in pre + [p] && FirstIndex(pre + [p], x) == FirstIndex(pre, x)
  {
    assert (pre + [p])[..|pre|] == pre;
    FirstIndexPrefix(pre + [p], |pre|, x);
  }

  /** A link with no parent, or with one already seen, leaves the tier as it is. */
  lemma TierSnocSkip<T>(pre: seq<Option<T>>, p: Option<T>, kept: seq<T>)
    requires IsLinkParentTier(pre, kept)
    requires p.Some? ==> p.value in kept
    ensures IsLinkParentTier(pre + [p], kept)
  {
    var parents := pre + [p];
    forall a | 0 <= a < |kept| ensures Some(kept[a]) in parents && FirstIndex(parents, Some(kept[a])) == FirstIndex(pre, Some(kept[a])) {
      FirstIndexSnoc(pre, p, Some(kept[a]));
    }
    forall k | 0 <= k < |parents| && parents[k].Some? ensures parents[k].value in kept {
      if k < |pre| {
        assert parents[k] == pre[k];
      }
    }
  }

  /** A link whose parent is new appends that parent to the tier. */
  lemma TierSnocAdd<T>(pre: seq<Option<T>>, x: T, kept: seq<T>)
    requires IsLinkParentTier(pre, kept)
    requires x !in kept
    ensures IsLinkParentTier(pre + [Some(x)], kept + [x])
  {
    var parents, cs := pre + [Some(x)], kept + [x];
    var n := |pre|;
    forall a | 0 <= a < |kept| ensures Some(cs[a]) in parents && FirstIndex(parents, Some(cs[a])) == FirstIndex(pre, Some(kept[a])) {
      assert cs[a] == kept[a];
      FirstIndexSnoc(pre, Some(x), Some(kept[a]));
    }
    assert Some(x) !in pre;
    assert FirstIndex(parents, Some(x)) == n by {
      assert parents[n] == Some(x);
    }
    assert NoDuplicates(cs);
    forall k | 0 <= k < |parents| && parents[k].Some? ensures parents[k].value in cs {
      if k < n {
        assert parents[k] == pre[k];
      }
    }
  }

  /** The tier is the only sequence with those properties. */
  lemma {:induction false} LinkParentTierUnique<T>(parents: seq<Option<T>>, a: seq<T>, b: seq<T>)
    requires IsLinkParentTier(parents, a) && IsLinkParentTier(parents, b)
    ensures a == b
    decreases |a|
  {
    if a != [] {
      TierLastAgrees(parents, a, b);
      var x := a[|a| - 1];
      var parents' := Drop(parents, x);
      DropKeepsTier(parents, a, x);
      DropKeepsTier(parents, b, x);
      LinkParentTierUnique(parents', a[..|a| - 1], b[..|b| - 1]);
      assert a == a[..|a| - 1] + [x] && b == b[..|b| - 1] + [x];
    }
  }

  /** Two tiers of the same parents end with the same parent: the one found last. */
  lemma TierLastAgrees<T>(parents: seq<Option<T>>, a: seq<T>, b: seq<T>)
    requires IsLinkParentTier(parents, a) && IsLinkParentTier(parents, b) && a != []
    ensures b != [] && a[|a| - 1] == b[|b| - 1]
  {
    assert Some(a[0]) in parents;
    var k0 :| 0 <= k0 < |parents| && parents[k0] == Some(a[0]);
    assert parents[k0].value in b;
    var x, y := a[|a| - 1], b[|b| - 1];
    assert Some(x) in parents && Some(y) in parents;
    var i :| 0 <= i < |parents| && parents[i] == Some(x);
    var i' :| 0 <= i' < |parents| && parents[i'] == Some(y);
    assert x in b && y in a;
    var ja :| 0 <= ja < |a| && a[ja] == y;
    var jb :| 0 <= jb < |b| && b[jb] == x;
    var kx, ky := FirstIndex(parents, Some(x)), FirstIndex(parents, Some(y));
    assert kx >= ky;
    assert ky >= kx;
  }

  /** `parents` with every occurrence of `Some(x)` blanked out. */
  function Drop<T(==)>(parents: seq<Option<T>>, x: T): (r: seq<Option<T>>)
    ensures |r| == |parents|
    ensures forall k :: 0 <= k < |r| ==> r[k] == if parents[k] == Some(x) then None else parents[k]
  {
    seq(|parents|, k requires 0 <= k < |parents| => if parents[k] == Some(x) then None else parents[k])
  }

  /** Blanking out the last parent of a tier leaves the rest of the tier. */
  lemma DropKeepsTier<T>(parents: seq<Option<T>>, cs: seq<T>, x: T)
    requires IsLinkParentTier(parents, cs) && cs != [] && cs[|cs| - 1] == x
    ensures IsLinkParentTier(Drop(parents, x), cs[..|cs| - 1])
  {
    var d := Drop(parents, x);
    var cs' := cs[..|cs| - 1];
    assert forall k :: 0 <= k < |cs'| ==> cs'[k] == cs[k];
    forall y | y in cs' ensures Some(y) in d && FirstIndex(d, Some(y)) == FirstIndex(parents, Some(y)) {
      assert y != x;
      var k := FirstIndex(parents, Some(y));
      assert d[k] == Some(y);
      var k' := FirstIndex(d, Some(y));
      assert parents[k'] == Some(y);
    }
    forall y | Some(y) in d ensures y in cs' {
      var k :| 0 <= k < |d| && d[k] == Some(y);
      assert parents[k] == Some(y) && y != x;
      assert y in cs;
      var j :| 0 <= j < |cs| && cs[j] == y;
      assert j < |cs| - 1;
      assert cs'[j] == y;
    }
  }

  /**
   * The link-parent tier, built as `parse_products` builds it: the parents
   * in link order, each added unless it is missing or already seen.
   */
  method LinkParentTier<T(==)>(parents: seq<Option<T>>) returns (containers: seq<T>)
    ensures containers == DistinctParents(parents)
  {
    containers := [];
    var seenParents: set<T> := {};
    for i := 0 to |parents|
      invariant containers == DistinctParents(parents[..i])
      invariant forall x :: x in seenParents <==> x in containers
    {
      assert parents[..i + 1][..i] == parents[..i];
      var parent := parents[i];
      if parent.Some? && parent.value !in seenParents {
        containers := containers + [parent.value];
        seenParents := seenParents + {parent.value};
      }
    }
    assert parents[..|parents|] == parents;
  }

  /**
   * The container cascade: the `data-id` tier whenever it is non-empty,
   * else the class tier whenever that is non-empty, else the link-parent
   * tier.
   */
  method LocateContainers<T(==)>(dataIdTier: seq<T>, classTier: seq<T>, linkParents: seq<Option<T>>)
    returns (containers: seq<T>)
    ensures dataIdTier != [] ==> containers == dataIdTier
    ensures dataIdTier == [] && classTier != [] ==> containers == classTier
    ensures dataIdTier == [] && classTier == [] ==> containers == DistinctParents(linkParents)
  {
    containers := dataIdTier;
    if containers == [] {
      containers := classTier;
    }
    if containers == [] {
      containers := LinkParentTier(linkParents);
    }
  }

  /** When no link has a `div` parent, no tier finds anything further. */
  lemma {:induction false} NoParentsNoContainers<T>(parents: seq<Option<T>>)
    requires forall k :: 0 <= k < |parents| ==> parents[k].None?
    ensures DistinctParents(parents) == []
    decreases |parents|
  {
    if parents != [] {
      NoParentsNoContainers(parents[..|parents| - 1]);
    }
  }
}
