/**
 * The per-type storage ComponentStorage<T> (src/ravine/ecs/ComponentStorage.hpp).
 *
 * One buffer holds every group of the type. The groups are kept in a sequence
 * sorted by GroupMaskCmp (the std::map of the source) and tile the buffer in
 * that order: the first starts at 0 and each starts where its predecessor
 * ends. The combination registry maps a key (own identity plus a subset sum
 * of the other identities) to the set of group masks registered under it.
 */
module Storage {
  import opened FastMath
  import opened Masks
  import opened Groups

  /** One entry of the groups map: a mask and its group. */
  datatype Entry = Entry(key: GroupMask, g: Group)

  /**
   * The storage of one component type: its identity (getInstance()), the
   * used size, the capacity, the buffer, the groups in mask order and the
   * combination registry.
   */
  datatype Store<T> = Store(self: int, size: int, capacity: int, data: seq<T>,
                            groups: seq<Entry>, registry: map<int, set<GroupMask>>)

  function EndOf(g: Group): int {
    g.base + g.size
  }

  /** The end of the last group: the part of the buffer the groups cover. */
  function Used(gs: seq<Entry>): int {
    if |gs| == 0 then 0 else EndOf(gs[|gs| - 1].g)
  }

  function KeySet(gs: seq<Entry>): set<GroupMask> {
    set e | e in gs :: e.key
  }

  predicate SortedKeys(gs: seq<Entry>) {
    forall i, j :: 0 <= i < j < |gs| ==> Less(gs[i].key, gs[j].key)
  }

  /** The groups from index lo on fit the buffer and each starts where the one before it ends. */
  predicate Layout<T>(data: seq<T>, gs: seq<Entry>, lo: int) {
    (forall j :: 0 <= j < |gs| && lo <= j ==> Fits(data, gs[j].g))
    && (forall j :: 0 < j < |gs| && lo < j ==> gs[j].g.base == EndOf(gs[j - 1].g))
  }

  /** The groups tile the buffer from slot 0 without gaps or overlaps. */
  predicate Tiled<T>(data: seq<T>, gs: seq<Entry>) {
    Layout(data, gs, 0) && (|gs| > 0 ==> gs[0].g.base == 0)
  }

  /** Every mask the registry names is the mask of a group of the storage. */
  predicate RegistryHeld(reg: map<int, set<GroupMask>>, gs: seq<Entry>) {
    forall k, x :: k in reg && x in reg[k] ==> x in KeySet(gs)
  }

  predicate Valid<T>(s: Store<T>) {
    |s.data| == s.capacity && SortedKeys(s.groups) && Tiled(s.data, s.groups)
    && Used(s.groups) <= s.size && RegistryHeld(s.registry, s.groups)
  }

  /**
   * A storage whose groups were moved or resized without changing their
   * masks stays valid when the moved groups still fit and tile the buffer.
   */
  lemma Reshaped<T>(s: Store<T>, r: Store<T>)
    requires Valid(s) && |r.data| == r.capacity && r.registry == s.registry
    requires |r.groups| == |s.groups| && forall j :: 0 <= j < |s.groups| ==> r.groups[j].key == s.groups[j].key
    requires forall j :: 0 <= j < |r.groups| ==> Fits(r.data, r.groups[j].g)
    requires |r.groups| > 0 ==> r.groups[0].g.base == 0
    requires forall j :: 0 < j < |r.groups| ==> r.groups[j].g.base == EndOf(r.groups[j - 1].g)
    requires Used(r.groups) <= r.size
    ensures Valid(r)
  {
    SameKeys(s.groups, r.groups);
  }

  /** In a layout, a group ends no later than any later group starts. */
  lemma {:induction false} LayoutOrder<T>(data: seq<T>, gs: seq<Entry>, lo: int, i: int, j: int)
    requires Layout(data, gs, lo) && 0 <= lo <= i < j < |gs|
    ensures EndOf(gs[i].g) <= gs[j].g.base
    decreases j - i
  {
    if i + 1 < j {
      LayoutOrder(data, gs, lo, i + 1, j);
    }
  }

  /** In a layout, every group ends no later than the last one. */
  lemma LayoutUsed<T>(data: seq<T>, gs: seq<Entry>, lo: int, i: int)
    requires Layout(data, gs, lo) && 0 <= lo <= i < |gs|
    ensures EndOf(gs[i].g) <= Used(gs)
  {
    if i < |gs| - 1 {
      LayoutOrder(data, gs, lo, i, |gs| - 1);
    }
  }

  /** A group's logical sequence only depends on the slots of its slice. */
  lemma ViewFrame<T>(a: seq<T>, b: seq<T>, g: Group, lo: int, hi: int)
    requires Fits(b, g) && UnchangedOutside(a, b, lo, hi)
    requires hi <= g.base || EndOf(g) <= lo
    ensures Fits(a, g) && View(a, g) == View(b, g)
  {
  }

  // ---------------------------------------------------------------------------
  // grow

  /** The capacity grow(newCapacity) allocates: max(capacity, newCapacity) * 1.2, truncated. */
  function GrownCapacity(capacity: int, newCapacity: int): (r: int)
    requires capacity >= 0
    ensures r >= capacity && r >= newCapacity
    ensures capacity >= 5 ==> r > capacity
  {
    var m := if capacity < newCapacity then newCapacity else capacity;
    m * 6 / 5
  }

  /**
   * grow(newCapacity): a larger buffer whose first capacity slots are the
   * old buffer; the fresh slots hold whatever the allocator left there,
   * here the value junk.
   */
  function Grow<T>(s: Store<T>, newCapacity: int, junk: T): (r: Store<T>)
    requires Valid(s)
    ensures r.capacity == GrownCapacity(s.capacity, newCapacity) && |r.data| == r.capacity
    ensures r.data[..s.capacity] == s.data
    ensures r == s.(capacity := r.capacity, data := r.data)
    ensures Valid(r)
  {
    var c := GrownCapacity(s.capacity, newCapacity);
    var data := s.data + seq(c - s.capacity, _ => junk);
    assert forall j :: 0 <= j < |s.groups| ==> Fits(data, s.groups[j].g);
    s.(capacity := c, data := data)
  }

  // ---------------------------------------------------------------------------
  // getRegistryEntryIt and getComponentGroup

  /** getRegistryEntryIt(key): find-or-create; an existing entry is kept as it is, a missing one starts empty. */
  function GetRegistryEntry(reg: map<int, set<GroupMask>>, key: int): (r: map<int, set<GroupMask>>)
    ensures key in r && r[key] == (if key in reg then reg[key] else {})
    ensures forall k :: k != key ==> (k in r <==> k in reg)
    ensures forall k :: k in reg ==> r[k] == reg[k]
  {
    if key in reg then reg else reg[key := {}]
  }

  /** The registry after inserting m under the key, through its find-or-create entry. */
  function Register(reg: map<int, set<GroupMask>>, key: int, m: GroupMask): (r: map<int, set<GroupMask>>)
    ensures forall k :: k in r <==> k in reg || k == key
    ensures forall k, x :: k in r ==> (x in r[k] <==> (k in reg && x in reg[k]) || (k == key && x == m))
  {
    var e := GetRegistryEntry(reg, key);
    e[key := e[key] + {m}]
  }

  /** The registry after inserting m under self + c for each combination c, in order. */
  function RegisterAll(reg: map<int, set<GroupMask>>, self: int, combs: seq<int>, m: GroupMask)
    : map<int, set<GroupMask>>
    decreases |combs|
  {
    if |combs| == 0 then reg
    else RegisterAll(Register(reg, self + combs[0], m), self, combs[1..], m)
  }

  /** After the inserts, a key is registered when it was before or is self + c; m joins exactly those keys' sets. */
  lemma {:induction false} RegisterAllFacts(reg: map<int, set<GroupMask>>, self: int, combs: seq<int>, m: GroupMask,
                                            r: map<int, set<GroupMask>>)
    requires r == RegisterAll(reg, self, combs, m)
    ensures forall k :: k in r <==> k in reg || k - self in combs
    ensures forall k, x :: k in r ==> (x in r[k] <==> (k in reg && x in reg[k]) || (k - self in combs && x == m))
    decreases |combs|
  {
    if |combs| > 0 {
      RegisterAllFacts(Register(reg, self + combs[0], m), self, combs[1..], m, r);
      assert forall x :: x in combs <==> x == combs[0] || x in combs[1..];
    }
  }

  /** x occurs in s, and only once. */
  predicate OccursOnce(s: seq<int>, x: int) {
    x in s && forall i, j :: 0 <= i < j < |s| && s[i] == x ==> s[j] != x
  }

  /** The copy loop that skips the storage's own identity: masks without its one occurrence of self. */
  function SelComb(masks: seq<int>, self: int): (r: seq<int>)
    requires self in masks
    ensures |r| == |masks| - 1
    ensures multiset(r) == multiset(masks) - multiset{self}
  {
    if masks[0] == self then
      assert masks == [masks[0]] + masks[1..];
      masks[1..]
    else
      assert masks == [masks[0]] + masks[1..];
      [masks[0]] + SelComb(masks[1..], self)
  }

  /** The other identities are exactly the masks other than self, and distinct when the masks are. */
  lemma SelCombFacts(masks: seq<int>, self: int)
    requires self in masks
    ensures forall x :: x in SelComb(masks, self) ==> x in masks
    ensures forall x :: x in masks && x != self ==> x in SelComb(masks, self)
    ensures NoDup(masks) ==> NoDup(SelComb(masks, self))
  {
    SelCombMembers(masks, self);
    if NoDup(masks) {
      SelCombNoDup(masks, self);
    }
  }

  lemma {:induction false} SelCombMembers(masks: seq<int>, self: int)
    requires self in masks
    ensures forall x :: x in SelComb(masks, self) ==> x in masks
    ensures forall x :: x in masks && x != self ==> x in SelComb(masks, self)
  {
    var r := SelComb(masks, self);
    if masks[0] != self {
      assert self in masks[1..];
      SelCombMembers(masks[1..], self);
      assert r == [masks[0]] + SelComb(masks[1..], self);
      forall x | x in masks && x != self
        ensures x in r
      {
        var i :| 0 <= i < |masks| && masks[i] == x;
        if i > 0 {
          assert masks[1..][i - 1] == x;
        }
      }
    } else {
      forall x | x in masks && x != self
        ensures x in r
      {
        var i :| 0 <= i < |masks| && masks[i] == x;
        assert r[i - 1] == x;
      }
    }
  }

  lemma {:induction false} SelCombNoDup(masks: seq<int>, self: int)
    requires self in masks && NoDup(masks)
    ensures NoDup(SelComb(masks, self))
  {
    var r := SelComb(masks, self);
    if masks[0] != self {
      var tail := masks[1..];
      assert self in tail;
      assert NoDup(tail) by {
        forall i, j | 0 <= i < j < |tail|
          ensures tail[i] != tail[j]
        {
          assert tail[i] == masks[i + 1] && tail[j] == masks[j + 1];
        }
      }
      SelCombNoDup(tail, self);
      SelCombMembers(tail, self);
      var rest := SelComb(tail, self);
      assert masks[0] !in tail by {
        forall j | 0 <= j < |tail|
          ensures tail[j] != masks[0]
        {
          assert tail[j] == masks[j + 1];
        }
      }
      assert r == [masks[0]] + rest;
      forall i, j | 0 <= i < j < |r|
        ensures r[i] != r[j]
      {
        assert r[j] == rest[j - 1];
        if i > 0 {
          assert r[i] == rest[i - 1];
        } else {
          assert r[j] in rest;
        }
      }
    } else {
      forall i, j | 0 <= i < j < |r|
        ensures r[i] != r[j]
      {
        assert r[i] == masks[i + 1] && r[j] == masks[j + 1];
      }
    }
  }

  /** lower_bound: the first group whose mask is not below m. */
  function LowerBound(gs: seq<Entry>, m: GroupMask, i: int): (r: int)
    requires 0 <= i <= |gs|
    ensures i <= r <= |gs|
    ensures forall j :: i <= j < r ==> Less(gs[j].key, m)
    ensures r < |gs| ==> !Less(gs[r].key, m)
    decreases |gs| - i
  {
    if i == |gs| || !Less(gs[i].key, m) then i else LowerBound(gs, m, i + 1)
  }

  /** In sorted groups, no mask from the lower bound on is below m, and m is present exactly when it sits there. */
  lemma LowerBoundSplits(gs: seq<Entry>, m: GroupMask)
    requires SortedKeys(gs)
    ensures var k := LowerBound(gs, m, 0);
      (forall j :: 0 <= j < k ==> Less(gs[j].key, m))
      && (forall j :: k <= j < |gs| ==> !Less(gs[j].key, m))
      && (m in KeySet(gs) <==> k < |gs| && gs[k].key == m)
  {
    var k := LowerBound(gs, m, 0);
    forall j | k < j < |gs|
      ensures !Less(gs[j].key, m)
    {
      LessIsStrictTotalOrder(gs[k].key, gs[j].key, m);
    }
    if m in KeySet(gs) {
      var e :| e in gs && e.key == m;
      var j :| 0 <= j < |gs| && gs[j] == e;
      LessIsStrictTotalOrder(m, m, m);
      if k < |gs| {
        LessIsStrictTotalOrder(gs[k].key, m, m);
      }
    }
  }

  /** The groups with a new empty group for mask m inserted at its lower bound. */
  function InsertGroup(gs: seq<Entry>, k: int, m: GroupMask): (r: seq<Entry>)
    requires 0 <= k <= |gs|
    ensures |r| == |gs| + 1 && r[k].key == m && r[k].g == NewGroup(if k == 0 then 0 else EndOf(gs[k - 1].g))
    ensures forall j :: 0 <= j < k ==> r[j] == gs[j]
    ensures forall j :: k < j < |r| ==> r[j] == gs[j - 1]
  {
    gs[..k] + [Entry(m, NewGroup(if k == 0 then 0 else EndOf(gs[k - 1].g)))] + gs[k..]
  }

  lemma InsertGroupKeeps<T>(s: Store<T>, k: int, m: GroupMask)
    requires Valid(s) && 0 <= k <= |s.groups|
    requires forall j :: 0 <= j < k ==> Less(s.groups[j].key, m)
    requires forall j :: k <= j < |s.groups| ==> Less(m, s.groups[j].key)
    ensures var r := InsertGroup(s.groups, k, m);
      SortedKeys(r) && Tiled(s.data, r) && Used(r) == Used(s.groups) && KeySet(r) == KeySet(s.groups) + {m}
  {
    InsertGroupSorted(s.groups, k, m);
    InsertGroupTiled(s.data, s.groups, k, m);
    InsertGroupKeys(s.groups, k, m);
  }

  lemma InsertGroupSorted(gs: seq<Entry>, k: int, m: GroupMask)
    requires SortedKeys(gs) && 0 <= k <= |gs|
    requires forall j :: 0 <= j < k ==> Less(gs[j].key, m)
    requires forall j :: k <= j < |gs| ==> Less(m, gs[j].key)
    ensures SortedKeys(InsertGroup(gs, k, m))
  {
    var r := InsertGroup(gs, k, m);
    forall i, j | 0 <= i < j < |r|
      ensures Less(r[i].key, r[j].key)
    {
      if i < k && k < j {
        LessIsStrictTotalOrder(r[i].key, m, r[j].key);
      }
    }
  }

  lemma InsertGroupTiled<T>(data: seq<T>, gs: seq<Entry>, k: int, m: GroupMask)
    requires Tiled(data, gs) && 0 <= k <= |gs|
    ensures var r := InsertGroup(gs, k, m); Tiled(data, r) && Used(r) == Used(gs)
  {
    var r := InsertGroup(gs, k, m);
    forall j | 0 <= j < |r|
      ensures Fits(data, r[j].g)
    {
      if j == k && 0 < k {
        assert Fits(data, gs[k - 1].g);
      }
    }
    forall j | 0 < j < |r|
      ensures r[j].g.base == EndOf(r[j - 1].g)
    {
      if j == k + 1 {
        assert r[j] == gs[k];
      } else if j > k + 1 {
        assert r[j] == gs[j - 1] && r[j - 1] == gs[j - 2];
      }
    }
  }

  lemma InsertGroupKeys(gs: seq<Entry>, k: int, m: GroupMask)
    requires 0 <= k <= |gs|
    ensures KeySet(InsertGroup(gs, k, m)) == KeySet(gs) + {m}
  {
    var r := InsertGroup(gs, k, m);
    forall e | e in r
      ensures e.key in KeySet(gs) + {m}
    {
      var j :| 0 <= j < |r| && r[j] == e;
      if j < k {
        assert gs[j] in gs;
      } else if j > k {
        assert gs[j - 1] in gs;
      }
    }
    forall e | e in gs
      ensures e.key in KeySet(r)
    {
      var j :| 0 <= j < |gs| && gs[j] == e;
      if j < k {
        assert r[j] == e;
      } else {
        assert r[j + 1] == e;
      }
    }
    assert r[k] in r;
  }

  /**
   * The registry keys a new group with masks gets: self, and self plus every
   * subset sum of the other identities. The entry under self is the entry
   * under self + 0, so it heads the list of offsets.
   */
  function RegisterGroup(reg: map<int, set<GroupMask>>, masks: seq<int>, self: int): (r: map<int, set<GroupMask>>)
    requires self in masks
  {
    RegisterAll(reg, self, [0] + SubsetSums(SelComb(masks, self)), MaskOf(masks))
  }

  lemma RegisterGroupFacts(reg: map<int, set<GroupMask>>, masks: seq<int>, self: int, r: map<int, set<GroupMask>>)
    requires self in masks && r == RegisterGroup(reg, masks, self)
    ensures forall k :: k in r <==> k in reg || k == self || k - self in SubsetSums(SelComb(masks, self))
    ensures forall k, x :: k in r ==>
        (x in r[k] <==>
          ((k in reg && x in reg[k])
           || (x == MaskOf(masks) && (k == self || k - self in SubsetSums(SelComb(masks, self))))))
  {
    var combs := SubsetSums(SelComb(masks, self));
    assert forall c :: c in [0] + combs <==> c == 0 || c in combs;
    RegisteredWithSelf(reg, self, [0] + combs, combs, MaskOf(masks), r);
  }

  /** Registering m under self + c for each offset c of cs, where the offsets are 0 and those of combs. */
  lemma RegisteredWithSelf(reg: map<int, set<GroupMask>>, self: int, cs: seq<int>, combs: seq<int>, m: GroupMask,
                           r: map<int, set<GroupMask>>)
    requires forall c :: c in cs <==> c == 0 || c in combs
    requires r == RegisterAll(reg, self, cs, m)
    ensures forall k :: k in r <==> k in reg || k == self || k - self in combs
    ensures forall k, x :: k in r ==>
        (x in r[k] <==> ((k in reg && x in reg[k]) || (x == m && (k == self || k - self in combs))))
  {
    RegisterAllFacts(reg, self, cs, m, r);
  }

  /**
   * getComponentGroup(masks): find-or-create by GroupMask. An existing group
   * is returned with the storage unchanged. Otherwise an empty group starting
   * at its predecessor's end (0 if first) is inserted in mask order, and its
   * mask is registered under self and under self + s for every subset sum s
   * of the other identities. The groups keep tiling the buffer.
   */
  function GetComponentGroup<T>(s: Store<T>, masks: seq<int>): (r: (Store<T>, int))
    requires Valid(s) && OccursOnce(masks, s.self)
    ensures Valid(r.0)
    ensures 0 <= r.1 < |r.0.groups| && r.0.groups[r.1].key == MaskOf(masks)
    ensures MaskOf(masks) in KeySet(s.groups) ==> r.0 == s
    ensures MaskOf(masks) !in KeySet(s.groups) ==>
      r.1 <= |s.groups| && r.0.groups == InsertGroup(s.groups, r.1, MaskOf(masks))
      && r.0 == s.(groups := r.0.groups, registry := r.0.registry)
    ensures MaskOf(masks) !in KeySet(s.groups) ==> r.0.registry == RegisterGroup(s.registry, masks, s.self)
    ensures KeySet(r.0.groups) == KeySet(s.groups) + {MaskOf(masks)}
  {
    var k := LowerBound(s.groups, MaskOf(masks), 0);
    LowerBoundSplits(s.groups, MaskOf(masks));
    if k < |s.groups| && s.groups[k].key == MaskOf(masks) then
      assert s.groups[k] in s.groups;
      (s, k)
    else
      forall j | k <= j < |s.groups|
        ensures Less(MaskOf(masks), s.groups[j].key)
      {
        LessIsStrictTotalOrder(MaskOf(masks), s.groups[j].key, MaskOf(masks));
      }
      InsertGroupKeys(s.groups, k, MaskOf(masks));
      (CreateGroup(s, masks, k), k)
  }

  /** The creating branch of getComponentGroup, for the lower bound k of the new mask. */
  function CreateGroup<T>(s: Store<T>, masks: seq<int>, k: int): (r: Store<T>)
    requires Valid(s) && OccursOnce(masks, s.self) && 0 <= k <= |s.groups|
    requires forall j :: 0 <= j < k ==> Less(s.groups[j].key, MaskOf(masks))
    requires forall j :: k <= j < |s.groups| ==> Less(MaskOf(masks), s.groups[j].key)
    ensures Valid(r)
    ensures r.groups == InsertGroup(s.groups, k, MaskOf(masks)) && r == s.(groups := r.groups, registry := r.registry)
    ensures r.registry == RegisterGroup(s.registry, masks, s.self)
  {
    InsertGroupKeeps(s, k, MaskOf(masks));
    RegisterGroupFacts(s.registry, masks, s.self, RegisterGroup(s.registry, masks, s.self));
    s.(groups := InsertGroup(s.groups, k, MaskOf(masks)), registry := RegisterGroup(s.registry, masks, s.self))
  }

  /**
   * The registry of a newly created group answers every query for a
   * sub-list of its identities that includes the storage's own one: the
   * query key (the MaskPack sum of the sub-list) names the new group.
   */
  lemma QueryFindsNewGroup<T>(s: Store<T>, masks: seq<int>, q: seq<int>)
    requires Valid(s) && OccursOnce(masks, s.self) && NoDup(masks) && MaskOf(masks) !in KeySet(s.groups)
    requires NoDup(q) && s.self in q && forall x :: x in q ==> x in masks
    ensures var r := GetComponentGroup(s, masks).0;
      PackMask(q) in r.registry && MaskOf(masks) in r.registry[PackMask(q)]
  {
    RegisteredUnderQuery(s.registry, masks, s.self, q);
  }

  /** The keys RegisterGroup adds include the MaskPack sum of every sub-list holding self. */
  lemma RegisteredUnderQuery(reg: map<int, set<GroupMask>>, masks: seq<int>, self: int, q: seq<int>)
    requires OccursOnce(masks, self) && NoDup(masks)
    requires NoDup(q) && self in q && forall x :: x in q ==> x in masks
    ensures var r := RegisterGroup(reg, masks, self);
      PackMask(q) in r && MaskOf(masks) in r[PackMask(q)]
  {
    var j :| 0 <= j < |q| && q[j] == self;
    var rest := q[..j] + q[j + 1..];
    var key := PackMask(q);
    assert key - self == PackMask(rest) by {
      PackMaskRemove(q, j);
    }
    assert key == self || key - self in SubsetSums(SelComb(masks, self)) by {
      QueryRestIsSubsetSum(masks, self, q, j);
    }
    RegisteredAt(reg, masks, self, key);
  }

  /** A key RegisterGroup covers names the new mask afterwards. */
  lemma RegisteredAt(reg: map<int, set<GroupMask>>, masks: seq<int>, self: int, key: int)
    requires self in masks
    requires key == self || key - self in SubsetSums(SelComb(masks, self))
    ensures var r := RegisterGroup(reg, masks, self); key in r && MaskOf(masks) in r[key]
  {
    RegisterGroupFacts(reg, masks, self, RegisterGroup(reg, masks, self));
  }

  /** Without self, the rest of the query list sums to 0 or to one of the subset sums of the other identities. */
  lemma QueryRestIsSubsetSum(masks: seq<int>, self: int, q: seq<int>, j: int)
    requires OccursOnce(masks, self) && NoDup(masks)
    requires NoDup(q) && 0 <= j < |q| && q[j] == self && forall x :: x in q ==> x in masks
    ensures var rest := q[..j] + q[j + 1..];
      PackMask(rest) == 0 || PackMask(rest) in SubsetSums(SelComb(masks, self))
  {
    var rest := q[..j] + q[j + 1..];
    if |rest| > 0 {
      var sel := SelComb(masks, self);
      SelCombFacts(masks, self);
      RestNoDup(q, j);
      forall x | x in rest
        ensures x in sel
      {
        var i :| 0 <= i < |rest| && rest[i] == x;
        if i < j {
          assert x == q[i];
        } else {
          assert x == q[i + 1];
        }
      }
      SubsetMaskInSubsetSums(sel, rest);
    } else {
      assert PackMask(rest) == 0;
    }
  }

  lemma RestNoDup(q: seq<int>, j: int)
    requires NoDup(q) && 0 <= j < |q|
    ensures NoDup(q[..j] + q[j + 1..]) && q[j] !in q[..j] + q[j + 1..]
  {
    var rest := q[..j] + q[j + 1..];
    forall a, b | 0 <= a < b < |rest|
      ensures rest[a] != rest[b]
    {
      var a' := if a < j then a else a + 1;
      var b' := if b < j then b else b + 1;
      assert rest[a] == q[a'] && rest[b] == q[b'];
    }
    forall a | 0 <= a < |rest|
      ensures rest[a] != q[j]
    {
      var a' := if a < j then a else a + 1;
      assert rest[a] == q[a'];
    }
  }

  // ---------------------------------------------------------------------------
  // The storage as a map from masks to logical sequences

  /** groups.find(m): the index of the group with mask m. */
  function Find(gs: seq<Entry>, m: GroupMask): (r: int)
    requires m in KeySet(gs)
    ensures 0 <= r < |gs| && gs[r].key == m
    ensures forall j :: 0 <= j < r ==> gs[j].key != m
  {
    var e :| e in gs && e.key == m;
    FindFrom(gs, m, 0)
  }

  function FindFrom(gs: seq<Entry>, m: GroupMask, i: int): (r: int)
    requires 0 <= i <= |gs| && exists j :: i <= j < |gs| && gs[j].key == m
    ensures i <= r < |gs| && gs[r].key == m
    ensures forall j :: i <= j < r ==> gs[j].key != m
    decreases |gs| - i
  {
    if gs[i].key == m then i else FindFrom(gs, m, i + 1)
  }

  /** With sorted masks, a mask sits at exactly one index. */
  lemma FindUnique(gs: seq<Entry>, i: int)
    requires SortedKeys(gs) && 0 <= i < |gs|
    ensures gs[i] in gs && Find(gs, gs[i].key) == i
  {
    LessIsStrictTotalOrder(gs[i].key, gs[i].key, gs[i].key);
  }

  /**
   * What the storage holds: for each mask of a group, the group's records in
   * logical order.
   */
  ghost function Contents<T>(s: Store<T>): (c: map<GroupMask, seq<T>>)
    requires Valid(s)
    ensures c.Keys == KeySet(s.groups)
  {
    map m | m in KeySet(s.groups) :: View(s.data, s.groups[Find(s.groups, m)].g)
  }

  /** Two valid storages whose groups carry the same masks in the same order hold the same masks, each at the same index. */
  lemma ContentsOfReshaped<T>(s: Store<T>, r: Store<T>)
    requires Valid(s) && Valid(r)
    requires |r.groups| == |s.groups| && forall j :: 0 <= j < |s.groups| ==> r.groups[j].key == s.groups[j].key
    ensures Contents(r).Keys == Contents(s).Keys
    ensures forall m :: m in Contents(s) ==> Find(r.groups, m) == Find(s.groups, m)
  {
    SameKeys(s.groups, r.groups);
    forall m | m in Contents(s)
      ensures Find(r.groups, m) == Find(s.groups, m)
    {
      FindUnique(r.groups, Find(s.groups, m));
    }
  }

  /** What the storage holds under group k's mask is group k's logical sequence. */
  lemma ContentsAt<T>(s: Store<T>, k: int)
    requires Valid(s) && 0 <= k < |s.groups|
    ensures s.groups[k].key in Contents(s) && Contents(s)[s.groups[k].key] == View(s.data, s.groups[k].g)
  {
    FindUnique(s.groups, k);
  }

  /** A mask the storage holds names its group, whose size is the length of what it holds. */
  lemma HeldSize<T>(s: Store<T>, m: GroupMask)
    requires Valid(s) && m in Contents(s)
    ensures m in KeySet(s.groups) && 0 <= Find(s.groups, m) < |s.groups|
    ensures s.groups[Find(s.groups, m)].g.size == |Contents(s)[m]|
  {
    ContentsAt(s, Find(s.groups, m));
  }

  /**
   * Two valid storages with the same masks in the same order, whose groups
   * read alike except group k, which reads v: the second holds what the
   * first does with v under group k's mask.
   */
  lemma ContentsUpdated<T>(s: Store<T>, r: Store<T>, k: int, v: seq<T>)
    requires Valid(s) && Valid(r) && 0 <= k < |s.groups|
    requires |r.groups| == |s.groups| && forall j :: 0 <= j < |s.groups| ==> r.groups[j].key == s.groups[j].key
    requires View(r.data, r.groups[k].g) == v
    requires forall j :: 0 <= j < |s.groups| && j != k ==> View(r.data, r.groups[j].g) == View(s.data, s.groups[j].g)
    ensures s.groups[k].key in Contents(s) && Contents(s)[s.groups[k].key] == View(s.data, s.groups[k].g)
    ensures Contents(r) == Contents(s)[s.groups[k].key := v]
  {
    ContentsOfReshaped(s, r);
    FindUnique(s.groups, k);
    var m := s.groups[k].key;
    assert Find(r.groups, m) == k;
    assert Contents(r)[m] == v;
    forall x | x in Contents(s) && x != m
      ensures Contents(r)[x] == Contents(s)[x]
    {
      var j := Find(s.groups, x);
      assert Find(r.groups, x) == j && j != k;
    }
    MapUpdated(Contents(r), Contents(s), m, v);
  }

  /** A map with the keys of b that agrees with b off the key m and holds v at m is b updated at m. */
  lemma MapUpdated<K, V>(a: map<K, V>, b: map<K, V>, m: K, v: V)
    requires a.Keys == b.Keys && m in b && a[m] == v
    requires forall x :: x in b && x != m ==> a[x] == b[x]
    ensures a == b[m := v]
  {
  }

  // ---------------------------------------------------------------------------
  // addComponent

  /**
   * The loop of addComponent that makes room: the groups from index i on
   * are rolled clockwise by count, the last one first. Each keeps its mask,
   * size and logical sequence and moves count slots up; the groups before i
   * are not touched, and only the slots from the end of group i to count
   * past the last group change.
   */
  function RollLater<T>(data: seq<T>, gs: seq<Entry>, i: int, count: int): (r: (seq<T>, seq<Entry>))
    requires 0 <= i <= |gs| && 0 <= count && Layout(data, gs, i) && Used(gs) + count <= |data|
    ensures |r.0| == |data| && |r.1| == |gs|
    ensures forall j :: 0 <= j < i ==> r.1[j] == gs[j]
    ensures forall j :: i <= j < |gs| ==>
      r.1[j].key == gs[j].key && r.1[j].g.base == gs[j].g.base + count && r.1[j].g.size == gs[j].g.size
    ensures forall j :: i <= j < |gs| ==> Fits(r.0, r.1[j].g) && View(r.0, r.1[j].g) == View(data, gs[j].g)
    ensures UnchangedOutside(r.0, data, if i < |gs| then EndOf(gs[i].g) else Used(gs) + count, Used(gs) + count)
    decreases |gs| - i
  {
    if i == |gs| then (data, gs)
    else
      var rest := RollLater(data, gs, i + 1, count);
      LayoutUsed(data, gs, i, i);
      var rolled := RollClockwise(rest.0, gs[i].g, count);
      RollLaterStep(data, gs, i, count, rest.0, rest.1, rolled);
      (rolled.buf, rest.1[i := Entry(gs[i].key, rolled.g)])
  }

  lemma RollLaterStep<T>(data: seq<T>, gs: seq<Entry>, i: int, count: int, d1: seq<T>, gs1: seq<Entry>, rolled: Placed<T>)
    requires 0 <= i < |gs| && 0 <= count && Layout(data, gs, i) && Used(gs) + count <= |data|
    requires |d1| == |data| && |gs1| == |gs|
    requires forall j :: i < j < |gs| ==> gs1[j].g.base == gs[j].g.base + count && Fits(d1, gs1[j].g)
    requires UnchangedOutside(d1, data, if i + 1 < |gs| then EndOf(gs[i + 1].g) else Used(gs) + count, Used(gs) + count)
    requires EndOf(gs[i].g) + count <= |d1|
    requires rolled == RollClockwise(d1, gs[i].g, count)
    ensures View(rolled.buf, rolled.g) == View(data, gs[i].g)
    ensures forall j :: i < j < |gs| ==> Fits(rolled.buf, gs1[j].g) && View(rolled.buf, gs1[j].g) == View(d1, gs1[j].g)
    ensures UnchangedOutside(rolled.buf, data, EndOf(gs[i].g), Used(gs) + count)
  {
    LayoutUsed(data, gs, i, i);
    ViewFrame(d1, data, gs[i].g, if i + 1 < |gs| then EndOf(gs[i + 1].g) else Used(gs) + count, Used(gs) + count);
    forall j | i < j < |gs|
      ensures Fits(rolled.buf, gs1[j].g) && View(rolled.buf, gs1[j].g) == View(d1, gs1[j].g)
    {
      LayoutOrder(data, gs, i, i, j);
      ViewFrame(rolled.buf, d1, gs1[j].g, EndOf(gs[i].g), EndOf(gs[i].g) + count);
    }
  }

  /** Pointwise equal masks give the same mask set. */
  lemma SameKeys(a: seq<Entry>, b: seq<Entry>)
    requires |a| == |b| && forall j :: 0 <= j < |a| ==> a[j].key == b[j].key
    ensures KeySet(a) == KeySet(b) && (SortedKeys(a) ==> SortedKeys(b))
  {
    forall e | e in a
      ensures e.key in KeySet(b)
    {
      var j :| 0 <= j < |a| && a[j] == e;
      assert b[j] in b;
    }
    forall e | e in b
      ensures e.key in KeySet(a)
    {
      var j :| 0 <= j < |b| && b[j] == e;
      assert a[j] in a;
    }
  }

  /**
   * The body of addComponent once the target group k is known: every later
   * group is rolled clockwise by the batch size, then the target is shifted
   * and the batch appended to it. The target's logical sequence gains the
   * batch at its end, every other group keeps its own, the groups before the
   * target keep their place, and the groups still tile the buffer.
   */
  function AddToGroup<T>(s: Store<T>, k: int, comps: seq<T>): (r: Store<T>)
    requires Valid(s) && 0 <= k < |s.groups| && Used(s.groups) + |comps| <= s.capacity
    ensures Valid(r)
    ensures r == s.(size := s.size + |comps|, data := r.data, groups := r.groups)
    ensures |r.groups| == |s.groups| && forall j :: 0 <= j < |s.groups| ==> r.groups[j].key == s.groups[j].key
    ensures forall j :: 0 <= j < k ==> r.groups[j] == s.groups[j]
    ensures r.groups[k].g.base == s.groups[k].g.base && r.groups[k].g.size == s.groups[k].g.size + |comps|
  {
    LayoutUsed(s.data, s.groups, 0, k);
    var rest := RollLater(s.data, s.groups, k + 1, |comps|);
    var added := ShiftAndAdd(rest.0, s.groups[k].g, comps);
    var gs := rest.1[k := Entry(s.groups[k].key, added.g)];
    AddedValid(s, k, comps, rest.0, rest.1, added, gs);
    s.(size := s.size + |comps|, data := added.buf, groups := gs)
  }

  /** After AddToGroup the target's logical sequence ends with the batch and every other group reads as before. */
  lemma AddToGroupContents<T>(s: Store<T>, k: int, comps: seq<T>)
    requires Valid(s) && 0 <= k < |s.groups| && Used(s.groups) + |comps| <= s.capacity
    ensures var r := AddToGroup(s, k, comps);
      View(r.data, r.groups[k].g) == View(s.data, s.groups[k].g) + comps
      && forall j :: 0 <= j < |s.groups| && j != k ==> View(r.data, r.groups[j].g) == View(s.data, s.groups[j].g)
  {
    LayoutUsed(s.data, s.groups, 0, k);
    var rest := RollLater(s.data, s.groups, k + 1, |comps|);
    var added := ShiftAndAdd(rest.0, s.groups[k].g, comps);
    var gs := rest.1[k := Entry(s.groups[k].key, added.g)];
    AddedViews(s, k, comps, rest.0, rest.1, added, gs);
  }

  /** The storage after the insertion is valid: the groups keep their masks and still tile the buffer. */
  lemma AddedValid<T>(s: Store<T>, k: int, comps: seq<T>, d1: seq<T>, gs1: seq<Entry>, added: Placed<T>, gs: seq<Entry>)
    requires Valid(s) && 0 <= k < |s.groups| && Used(s.groups) + |comps| <= s.capacity
    requires |d1| == |s.data| && |gs1| == |s.groups| && |added.buf| == |d1|
    requires forall j :: 0 <= j < k + 1 ==> gs1[j] == s.groups[j]
    requires forall j :: k + 1 <= j < |s.groups| ==>
      gs1[j].key == s.groups[j].key && gs1[j].g.base == s.groups[j].g.base + |comps| && gs1[j].g.size == s.groups[j].g.size
    requires forall j :: k + 1 <= j < |s.groups| ==> Fits(d1, gs1[j].g)
    requires added.g == s.groups[k].g.(size := s.groups[k].g.size + |comps|) && Fits(added.buf, added.g)
    requires gs == gs1[k := Entry(s.groups[k].key, added.g)]
    ensures Valid(s.(size := s.size + |comps|, data := added.buf, groups := gs))
    ensures |gs| == |s.groups| && forall j :: 0 <= j < |s.groups| ==> gs[j].key == s.groups[j].key
  {
    AddedShape(s.groups, gs1, k, |comps|, gs);
    forall j | 0 <= j < |gs|
      ensures Fits(added.buf, gs[j].g)
    {
      if j < k {
        assert Fits(s.data, s.groups[j].g);
      } else if j > k {
        assert Fits(d1, gs1[j].g);
      }
    }
    Reshaped(s, s.(size := s.size + |comps|, data := added.buf, groups := gs));
  }

  /** The group records after the insertion: same masks, still adjacent from 0, the used part grown by count. */
  lemma AddedShape(gs0: seq<Entry>, gs1: seq<Entry>, k: int, count: int, gs: seq<Entry>)
    requires 0 <= k < |gs0| && |gs1| == |gs0|
    requires gs0[0].g.base == 0 && forall j :: 0 < j < |gs0| ==> gs0[j].g.base == EndOf(gs0[j - 1].g)
    requires forall j :: 0 <= j < k + 1 ==> gs1[j] == gs0[j]
    requires forall j :: k + 1 <= j < |gs0| ==>
      gs1[j].key == gs0[j].key && gs1[j].g.base == gs0[j].g.base + count && gs1[j].g.size == gs0[j].g.size
    requires gs == gs1[k := Entry(gs0[k].key, gs0[k].g.(size := gs0[k].g.size + count))]
    ensures |gs| == |gs0| && forall j :: 0 <= j < |gs0| ==> gs[j].key == gs0[j].key
    ensures gs[0].g.base == 0 && forall j :: 0 < j < |gs| ==> gs[j].g.base == EndOf(gs[j - 1].g)
    ensures Used(gs) == Used(gs0) + count
  {
  }

  /** The logical sequences after the insertion: the target gains the batch, every other group keeps its own. */
  lemma AddedViews<T>(s: Store<T>, k: int, comps: seq<T>, d1: seq<T>, gs1: seq<Entry>, added: Placed<T>, gs: seq<Entry>)
    requires Valid(s) && 0 <= k < |s.groups| && Used(s.groups) + |comps| <= s.capacity
    requires (d1, gs1) == RollLater(s.data, s.groups, k + 1, |comps|)
    requires added.g == s.groups[k].g.(size := s.groups[k].g.size + |comps|) && Fits(added.buf, added.g)
    requires View(added.buf, added.g) == View(d1, s.groups[k].g) + comps
    requires UnchangedOutside(added.buf, d1, s.groups[k].g.base, EndOf(s.groups[k].g) + |comps|)
    requires gs == gs1[k := Entry(s.groups[k].key, added.g)]
    ensures |added.buf| == |s.data|
    ensures forall j :: 0 <= j < |s.groups| ==> Fits(added.buf, gs[j].g)
    ensures View(added.buf, gs[k].g) == View(s.data, s.groups[k].g) + comps
    ensures forall j :: 0 <= j < |s.groups| && j != k ==> View(added.buf, gs[j].g) == View(s.data, s.groups[j].g)
  {
    var count := |comps|;
    var lo := if k + 1 < |s.groups| then EndOf(s.groups[k + 1].g) else Used(s.groups) + count;
    LayoutUsed(s.data, s.groups, 0, k);
    ViewFrame(d1, s.data, s.groups[k].g, lo, Used(s.groups) + count);
    forall j | 0 <= j < |s.groups| && j != k
      ensures Fits(added.buf, gs[j].g) && View(added.buf, gs[j].g) == View(s.data, s.groups[j].g)
    {
      if j < k {
        AddedViewBelow(s, k, j, count, lo, Used(s.groups) + count, d1, added.buf);
      } else {
        AddedViewAbove(s, k, j, count, d1, gs1[j].g, added.buf);
      }
    }
  }

  /** A group before the target lies below both moved ranges and reads as before. */
  lemma AddedViewBelow<T>(s: Store<T>, k: int, j: int, count: int, lo: int, hi: int, d1: seq<T>, buf: seq<T>)
    requires Valid(s) && 0 <= j < k < |s.groups| && 0 <= count && EndOf(s.groups[k].g) <= lo
    requires UnchangedOutside(d1, s.data, lo, hi)
    requires UnchangedOutside(buf, d1, s.groups[k].g.base, EndOf(s.groups[k].g) + count)
    ensures Fits(buf, s.groups[j].g) && View(buf, s.groups[j].g) == View(s.data, s.groups[j].g)
  {
    LayoutOrder(s.data, s.groups, 0, j, k);
    ViewFrame(d1, s.data, s.groups[j].g, lo, hi);
    ViewFrame(buf, d1, s.groups[j].g, s.groups[k].g.base, EndOf(s.groups[k].g) + count);
  }

  /** A group after the target, already rolled up by count, lies above the grown target and reads as before. */
  lemma AddedViewAbove<T>(s: Store<T>, k: int, j: int, count: int, d1: seq<T>, g1: Group, buf: seq<T>)
    requires Valid(s) && 0 <= k < j < |s.groups| && 0 <= count
    requires g1.base == s.groups[j].g.base + count && Fits(d1, g1) && View(d1, g1) == View(s.data, s.groups[j].g)
    requires UnchangedOutside(buf, d1, s.groups[k].g.base, EndOf(s.groups[k].g) + count)
    ensures Fits(buf, g1) && View(buf, g1) == View(s.data, s.groups[j].g)
  {
    LayoutOrder(s.data, s.groups, 0, k, j);
    ViewFrame(buf, d1, g1, s.groups[k].g.base, EndOf(s.groups[k].g) + count);
  }

}
