/**
 * getComponentIterator of ComponentStorage<T>
 * (src/ravine/ecs/ComponentStorage.hpp): the iterators for every group
 * registered under a combination key, in the order the registry's
 * std::set<GroupMask, GroupMaskCmp> lists them.
 */
module Lookup {
  import opened FastMath
  import opened Masks
  import opened Groups
  import opened Storage
  import opened Iterators

  /** The masks are listed in strictly ascending GroupMaskCmp order. */
  predicate InMaskOrder(ms: seq<GroupMask>) {
    forall i, j :: 0 <= i < j < |ms| ==> Less(ms[i], ms[j])
  }

  /** m is below every other mask of the set. */
  predicate IsLeast(ms: set<GroupMask>, m: GroupMask) {
    forall x :: x in ms && x != m ==> Less(m, x)
  }

  /** A non-empty set of masks has a least element under GroupMaskCmp. */
  lemma {:induction false} LeastExists(ms: set<GroupMask>)
    requires ms != {}
    ensures exists m :: m in ms && IsLeast(ms, m)
    decreases |ms|
  {
    var y :| y in ms;
    if ms == {y} {
      assert IsLeast(ms, y);
    } else {
      assert ms - {y} != {} by {
        var w :| w in ms && w != y;
        assert w in ms - {y};
      }
      LeastExists(ms - {y});
      var z :| z in ms - {y} && IsLeast(ms - {y}, z);
      if Less(y, z) {
        forall x | x in ms && x != y
          ensures Less(y, x)
        {
          assert x in ms - {y};
          LessIsStrictTotalOrder(y, z, x);
        }
        assert IsLeast(ms, y);
      } else {
        LessIsStrictTotalOrder(y, z, y);
        assert IsLeast(ms, z);
      }
    }
  }

  /** A set of masks in ascending order, the order a std::set with GroupMaskCmp iterates it in. */
  ghost function Ascending(ms: set<GroupMask>): seq<GroupMask>
    decreases |ms|
  {
    if ms == {} then []
    else
      LeastExists(ms);
      var m :| m in ms && IsLeast(ms, m);
      [m] + Ascending(ms - {m})
  }

  /** Ascending lists every mask of the set once, in increasing order. */
  lemma {:induction false} AscendingFacts(ms: set<GroupMask>)
    ensures |Ascending(ms)| == |ms|
    ensures forall x :: x in Ascending(ms) <==> x in ms
    ensures InMaskOrder(Ascending(ms))
    decreases |ms|
  {
    if ms != {} {
      LeastExists(ms);
      var m :| m in ms && IsLeast(ms, m);
      assert Ascending(ms) == [m] + Ascending(ms - {m});
      AscendingFacts(ms - {m});
    }
  }

  /** The masks of the groups that lie in ms, in the groups' order. */
  function SelectedKeys(gs: seq<Entry>, ms: set<GroupMask>): seq<GroupMask>
    decreases |gs|
  {
    if |gs| == 0 then []
    else (if gs[0].key in ms then [gs[0].key] else []) + SelectedKeys(gs[1..], ms)
  }

  /** Over sorted groups, the selected masks are the masks of ms held by a group, in increasing order. */
  lemma {:induction false} SelectedKeysFacts(gs: seq<Entry>, ms: set<GroupMask>)
    requires SortedKeys(gs)
    ensures forall x :: x in SelectedKeys(gs, ms) <==> x in ms && x in KeySet(gs)
    ensures InMaskOrder(SelectedKeys(gs, ms))
    decreases |gs|
  {
    if |gs| > 0 {
      var tail := gs[1..];
      assert SortedKeys(tail) by {
        forall i, j | 0 <= i < j < |tail|
          ensures Less(tail[i].key, tail[j].key)
        {
          assert tail[i] == gs[i + 1] && tail[j] == gs[j + 1];
        }
      }
      SelectedKeysFacts(tail, ms);
      var rest := SelectedKeys(tail, ms);
      assert forall x :: x in KeySet(gs) <==> x == gs[0].key || x in KeySet(tail) by {
        assert gs == [gs[0]] + tail;
      }
      forall x | x in KeySet(tail)
        ensures Less(gs[0].key, x)
      {
        var e :| e in tail && e.key == x;
        var j :| 0 <= j < |tail| && tail[j] == e;
        assert gs[j + 1] == e;
      }
    }
  }

  /** Two increasing lists of the same masks are the same list. */
  lemma {:induction false} IncreasingUnique(a: seq<GroupMask>, b: seq<GroupMask>)
    requires InMaskOrder(a) && InMaskOrder(b)
    requires forall x :: x in a <==> x in b
    ensures a == b
    decreases |a|
  {
    if |a| == 0 {
      if |b| > 0 {
        Nonempty(b);
        assert false;
      }
    } else {
      assert a[0] in b;
      var j0 :| 0 <= j0 < |b| && b[j0] == a[0];
      assert b[0] in a;
      var i0 :| 0 <= i0 < |a| && a[i0] == b[0];
      if a[0] != b[0] {
        LessIsStrictTotalOrder(a[0], b[0], a[0]);
        assert false;
      }
      forall x | x in a[1..]
        ensures x in b[1..]
      {
        var i :| 1 <= i < |a| && a[i] == x;
        LessIsStrictTotalOrder(a[0], x, a[0]);
        assert x in a;
        var j :| 0 <= j < |b| && b[j] == x;
        assert j != 0 && b[1..][j - 1] == x;
      }
      forall x | x in b[1..]
        ensures x in a[1..]
      {
        var j :| 1 <= j < |b| && b[j] == x;
        LessIsStrictTotalOrder(b[0], x, b[0]);
        assert x in b;
        var i :| 0 <= i < |a| && a[i] == x;
        assert i != 0 && a[1..][i - 1] == x;
      }
      assert InMaskOrder(a[1..]) && InMaskOrder(b[1..]);
      IncreasingUnique(a[1..], b[1..]);
      assert a == [a[0]] + a[1..] && b == [b[0]] + b[1..];
    }
  }

  /**
   * The masks registered under a key, walked in group order, are the
   * registered set in ascending order, and each names a group.
   */
  lemma RegistryOrder<T>(s: Store<T>, key: int)
    requires Valid(s) && key in s.registry
    ensures SelectedKeys(s.groups, s.registry[key]) == Ascending(s.registry[key])
    ensures |Ascending(s.registry[key])| == |s.registry[key]|
    ensures forall x :: x in Ascending(s.registry[key]) ==> x in KeySet(s.groups)
  {
    SelectedKeysFacts(s.groups, s.registry[key]);
    AscendingFacts(s.registry[key]);
    IncreasingUnique(SelectedKeys(s.groups, s.registry[key]), Ascending(s.registry[key]));
  }

  /**
   * getComponentIterator(mask): a key the registry does not hold gives the
   * empty iterator list. Otherwise one iterator per registered mask, as
   * many as the set holds and in its order, each built from the group the
   * storage keeps under that mask. The set may hold at most 50 masks, the
   * capacity of CompGroupIt.
   */
  function GetComponentIterator<T>(s: Store<T>, key: int): (r: seq<CompIt>)
    requires Valid(s)
    requires key in s.registry ==> |s.registry[key]| <= MaxGroups
    ensures key !in s.registry ==> r == []
    ensures key in s.registry ==>
      var order := Ascending(s.registry[key]);
      |r| == |order| == |s.registry[key]|
      && forall i :: 0 <= i < |r| ==>
           order[i] in KeySet(s.groups) && r[i] == GroupIt(s.groups[Find(s.groups, order[i])].g)
  {
    if key !in s.registry then []
    else
      var order := SelectedKeys(s.groups, s.registry[key]);
      RegistryOrder(s, key);
      MakeCompGroupIt(seq(|order|, i requires 0 <= i < |order| => s.groups[Find(s.groups, order[i])].g))
  }
}
