/**
 * Archetype keys: the compile-time mask of a type list (MaskPack in
 * src/ravine/ecs/TemplateMaskPack.h) and the run-time GroupMask with its
 * comparator GroupMaskCmp (src/ravine/ecs/ComponentsGroup.hpp).
 *
 * A component type is denoted by the identity of its storage, an abstract int
 * (the source uses the storage's address). A MaskArray<N> is then simply the
 * list of identities in type-list order, a seq<int>.
 */
module Masks {
  import opened FastMath

  /** MaskPack<H, T...>::mask(): the identity of H plus the mask of T...; 0 for the empty pack. */
  function PackMask(ids: seq<int>): int {
    if |ids| == 0 then 0 else ids[0] + PackMask(ids[1..])
  }

  lemma {:induction false} PackMaskConcat(a: seq<int>, b: seq<int>)
    ensures PackMask(a + b) == PackMask(a) + PackMask(b)
    decreases |a|
  {
    if |a| > 0 {
      assert (a + b)[1..] == a[1..] + b;
      PackMaskConcat(a[1..], b);
    } else {
      assert a + b == b;
    }
  }

  /** Taking one identity out of the list takes exactly its value out of the mask. */
  lemma PackMaskRemove(s: seq<int>, j: int)
    requires 0 <= j < |s|
    ensures PackMask(s) == s[j] + PackMask(s[..j] + s[j + 1..])
  {
    assert s == s[..j] + [s[j]] + s[j + 1..];
    PackMaskSplit(s[..j], s[j], s[j + 1..]);
  }

  lemma PackMaskSplit(u: seq<int>, x: int, v: seq<int>)
    ensures PackMask(u + [x] + v) == x + PackMask(u + v)
  {
    assert u + [x] + v == u + ([x] + v);
    PackMaskConcat(u, [x] + v);
    PackMaskCons(x, v);
    PackMaskConcat(u, v);
  }

  lemma PackMaskCons(x: int, v: seq<int>)
    ensures PackMask([x] + v) == x + PackMask(v)
  {
    assert ([x] + v)[1..] == v;
  }

  /**
   * The mask does not depend on the order of the type list: any two lists
   * holding the same identities (with multiplicity) have the same mask.
   */
  lemma {:induction false} PackMaskPermutation(a: seq<int>, b: seq<int>)
    requires multiset(a) == multiset(b)
    ensures PackMask(a) == PackMask(b)
    decreases |a|
  {
    if |a| > 0 {
      assert a[0] in multiset(b);
      var j :| 0 <= j < |b| && b[j] == a[0];
      var rest := b[..j] + b[j + 1..];
      MultisetRemove(b, j);
      MultisetTail(a);
      PackMaskPermutation(a[1..], rest);
      PackMaskRemove(b, j);
    } else {
      assert |b| == 0;
    }
  }

  lemma MultisetTail(s: seq<int>)
    requires |s| > 0
    ensures multiset(s[1..]) == multiset(s) - multiset{s[0]}
  {
    assert s == [s[0]] + s[1..];
  }

  lemma MultisetRemove(s: seq<int>, j: int)
    requires 0 <= j < |s|
    ensures multiset(s[..j] + s[j + 1..]) == multiset(s) - multiset{s[j]}
  {
    assert s == s[..j] + [s[j]] + s[j + 1..];
  }

  // ---------------------------------------------------------------------------
  // GroupMask and GroupMaskCmp

  /** The archetype key: the sum of the type identities and their count. */
  datatype GroupMask = GroupMask(typePtr: int, typesCount: int)

  /** The key of an archetype with the given identities. */
  function MaskOf(ids: seq<int>): GroupMask {
    GroupMask(PackMask(ids), |ids|)
  }

  /**
   * The GroupMask constructor: a left-to-right accumulation over the
   * MaskArray. It agrees with the recursive MaskPack sum of the same list.
   */
  method MakeGroupMask(masks: seq<int>) returns (m: GroupMask)
    ensures m.typesCount == |masks|
    ensures m.typePtr == PackMask(masks)
    ensures m == MaskOf(masks)
  {
    var typePtr := 0;
    var i := 0;
    while i < |masks|
      invariant 0 <= i <= |masks|
      invariant typePtr == PackMask(masks[..i])
    {
      assert masks[..i + 1] == masks[..i] + [masks[i]];
      PackMaskConcat(masks[..i], [masks[i]]);
      assert PackMask([masks[i]]) == masks[i];
      typePtr := typePtr + masks[i];
      i := i + 1;
    }
    assert masks[..i] == masks;
    m := GroupMask(typePtr, |masks|);
  }

  /** GroupMaskCmp: more types first, then ascending identity sum. */
  predicate Less(a: GroupMask, b: GroupMask) {
    if a.typesCount != b.typesCount then a.typesCount > b.typesCount else a.typePtr < b.typePtr
  }

  /**
   * GroupMaskCmp is a strict total order on keys: irreflexive, transitive and
   * total, so two keys are equivalent under it exactly when they are equal.
   */
  lemma LessIsStrictTotalOrder(a: GroupMask, b: GroupMask, c: GroupMask)
    ensures !Less(a, a)
    ensures Less(a, b) && Less(b, c) ==> Less(a, c)
    ensures Less(a, b) ==> !Less(b, a)
    ensures a != b <==> Less(a, b) || Less(b, a)
  {
  }

  // ---------------------------------------------------------------------------
  // Subset sums as masks

  /** The seeds an index tuple selects, in tuple order. */
  function Select(seeds: seq<int>, t: seq<int>): (r: seq<int>)
    requires Within(t, 0, |seeds|)
    ensures |r| == |t|
    ensures forall i :: 0 <= i < |t| ==> r[i] == seeds[t[i]]
  {
    if |t| == 0 then [] else [seeds[t[0]]] + Select(seeds, t[1..])
  }

  /** The subset sum of getMaskCombinations is the MaskPack sum of the selected identities. */
  lemma {:induction false} SubsetSumIsPackMask(seeds: seq<int>, t: seq<int>)
    requires Within(t, 0, |seeds|)
    ensures SubsetSum(seeds, t) == PackMask(Select(seeds, t))
    decreases |t|
  {
    if |t| > 0 {
      var u := t[..|t| - 1];
      SubsetSumIsPackMask(seeds, u);
      assert Select(seeds, t) == Select(seeds, u) + [seeds[t[|t| - 1]]];
      PackMaskConcat(Select(seeds, u), [seeds[t[|t| - 1]]]);
    }
  }

  /** The increasing indices i in [lo, |s|) whose seed s[i] is in the set q. */
  function Positions(s: seq<int>, q: set<int>, lo: nat): (t: seq<int>)
    requires lo <= |s|
    ensures Within(t, lo, |s|) && Increasing(t)
    ensures forall i :: 0 <= i < |t| ==> s[t[i]] in q
    ensures forall i :: lo <= i < |s| && s[i] in q ==> i in t
    decreases |s| - lo
  {
    if lo == |s| then []
    else if s[lo] in q then [lo] + Positions(s, q, lo + 1)
    else Positions(s, q, lo + 1)
  }

  /** A list with no repeated identity holds each of its members exactly once. */
  lemma {:induction false} NoDupMultiplicity(a: seq<int>, x: int)
    requires NoDup(a)
    ensures multiset(a)[x] == if x in a then 1 else 0
    decreases |a|
  {
    if |a| > 0 {
      assert a == [a[0]] + a[1..];
      assert NoDup(a[1..]) by {
        forall i, j | 0 <= i < j < |a[1..]|
          ensures a[1..][i] != a[1..][j]
        {
          assert a[1..][i] == a[i + 1] && a[1..][j] == a[j + 1];
        }
      }
      NoDupMultiplicity(a[1..], x);
      assert a[0] !in a[1..] by {
        forall j | 0 <= j < |a[1..]|
          ensures a[1..][j] != a[0]
        {
          assert a[1..][j] == a[j + 1];
        }
      }
    }
  }

  lemma NoDupSameSet(a: seq<int>, b: seq<int>)
    requires NoDup(a) && NoDup(b)
    requires forall x :: x in a <==> x in b
    ensures multiset(a) == multiset(b)
  {
    forall x
      ensures multiset(a)[x] == multiset(b)[x]
    {
      NoDupMultiplicity(a, x);
      NoDupMultiplicity(b, x);
    }
  }

  lemma SelectPositionsNoDup(s: seq<int>, q: set<int>)
    requires NoDup(s)
    ensures NoDup(Select(s, Positions(s, q, 0)))
  {
    var t := Positions(s, q, 0);
    var r := Select(s, t);
    forall i, j | 0 <= i < j < |r|
      ensures r[i] != r[j]
    {
      Spacing(t, i, j);
    }
  }

  /**
   * A non-empty list of distinct identities drawn from distinct seeds is,
   * up to order, the selection of one increasing index tuple over the seeds.
   */
  lemma SubsetAsTuple(s: seq<int>, r: seq<int>) returns (t: seq<int>)
    requires NoDup(s) && NoDup(r) && |r| >= 1
    requires forall x :: x in r ==> x in s
    ensures ValidTuple(t, 0, |s|, |t|) && |t| >= 1
    ensures PackMask(Select(s, t)) == PackMask(r)
  {
    var q := set x | x in r;
    t := Positions(s, q, 0);
    var sel := Select(s, t);
    SelectPositionsNoDup(s, q);
    forall x
      ensures x in sel <==> x in r
    {
      if x in r {
        var i :| 0 <= i < |s| && s[i] == x;
        assert i in t;
        var k :| 0 <= k < |t| && t[k] == i;
        assert sel[k] == x;
      }
    }
    NoDupSameSet(sel, r);
    PackMaskPermutation(sel, r);
    assert r[0] in sel;
  }

  /**
   * Every non-empty sub-list of distinct seeds has its mask among the sums
   * getMaskCombinations produces for those seeds.
   */
  lemma SubsetMaskInSubsetSums(s: seq<int>, r: seq<int>)
    requires NoDup(s) && NoDup(r) && |r| >= 1
    requires forall x :: x in r ==> x in s
    ensures PackMask(r) in SubsetSums(s)
  {
    var t := SubsetAsTuple(s, r);
    EachSubsetExactlyOnce(t, |s|);
    var all := AllCombs(|s|);
    var i :| 0 <= i < |all| && all[i] == t;
    BandsValid(|s|, |s|, 0);
    SubsetSumIsPackMask(s, t);
    assert SubsetSums(s)[i] == SubsetSum(s, t);
  }
}
