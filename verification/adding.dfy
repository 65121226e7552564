/**
 * Adding records to a storage: the batch addComponent and the single-record
 * addComponent of ComponentStorage<T> (src/ravine/ecs/ComponentStorage.hpp).
 *
 * Their meaning is stated on Contents, the storage read as a map from group
 * masks to logical sequences: adding a batch for some masks appends the
 * batch to the sequence under their GroupMask, creating an empty one first
 * when the storage has no such group, and leaves every other sequence alone.
 */
module Adding {
  import opened Masks
  import opened Groups
  import opened Storage
  import opened Removal

  /**
   * The capacity addComponent works in: grown once, by grow(), when size +
   * count reaches the capacity, and then larger once the capacity is at
   * least 5 (below that the 1.2 factor truncates back to it).
   */
  function AddCapacity(size: int, capacity: int, count: int): (r: int)
    requires capacity >= 0
    ensures r >= capacity
    ensures size + count < capacity ==> r == capacity
    ensures size + count >= capacity && capacity >= 5 ==> r > capacity
  {
    if size + count >= capacity then GrownCapacity(capacity, 0) else capacity
  }

  /** What the storage holds under m: the group's records, or nothing when it has no group for m. */
  ghost function Held<T>(s: Store<T>, m: GroupMask): seq<T>
    requires Valid(s)
  {
    if m in Contents(s) then Contents(s)[m] else []
  }

  /**
   * The first half of addComponent: grow once when size + count reaches the
   * capacity, then find or create the group for the masks. The slots grow()
   * adds hold the value junk. The size is not changed yet.
   */
  function Reserve<T>(s: Store<T>, masks: seq<int>, count: int, junk: T): (r: (Store<T>, int))
    requires Valid(s) && OccursOnce(masks, s.self)
    ensures Valid(r.0) && r.0.self == s.self && r.0.size == s.size
    ensures r.0.capacity == AddCapacity(s.size, s.capacity, count)
    ensures 0 <= r.1 < |r.0.groups| && r.0.groups[r.1].key == MaskOf(masks)
    ensures KeySet(r.0.groups) == KeySet(s.groups) + {MaskOf(masks)}
    ensures r.0.registry == if MaskOf(masks) in KeySet(s.groups) then s.registry else RegisterGroup(s.registry, masks, s.self)
  {
    var t := if s.size + count >= s.capacity then Grow(s, 0, junk) else s;
    GetComponentGroup(t, masks)
  }

  /** Reserve adds an empty sequence for a new mask and keeps everything the storage holds. */
  lemma ReserveContents<T>(s: Store<T>, masks: seq<int>, count: int, junk: T)
    requires Valid(s) && OccursOnce(masks, s.self)
    ensures var m := MaskOf(masks);
      Contents(Reserve(s, masks, count, junk).0) == Contents(s)[m := Held(s, m)]
  {
    if s.size + count >= s.capacity {
      var t := Grow(s, 0, junk);
      GrowContents(s, 0, junk);
      GetComponentGroupContents(t, masks);
      assert Held(t, MaskOf(masks)) == Held(s, MaskOf(masks));
    } else {
      GetComponentGroupContents(s, masks);
    }
  }

  /**
   * addComponent(masks, comps): grow once when size + count reaches the
   * capacity, find or create the group for the masks, roll the later groups
   * up and append the batch to the group. The source grows only once, so
   * the batch has to fit the capacity after that one grow. The result
   * carries the index of the group.
   */
  function AddComponent<T>(s: Store<T>, masks: seq<int>, comps: seq<T>, junk: T): (r: (Store<T>, int))
    requires Valid(s) && OccursOnce(masks, s.self)
    requires s.size + |comps| <= AddCapacity(s.size, s.capacity, |comps|)
    ensures Valid(r.0) && r.0.self == s.self && r.0.size == s.size + |comps|
    ensures r.0.capacity == AddCapacity(s.size, s.capacity, |comps|)
    ensures 0 <= r.1 < |r.0.groups| && r.0.groups[r.1].key == MaskOf(masks)
  {
    var u := Reserve(s, masks, |comps|, junk);
    (AddToGroup(u.0, u.1, comps), u.1)
  }

  /**
   * addComponent registers the group's mask exactly when it creates the
   * group: for masks whose group exists the registry is left as it is.
   */
  lemma AddComponentRegistry<T>(s: Store<T>, masks: seq<int>, comps: seq<T>, junk: T)
    requires Valid(s) && OccursOnce(masks, s.self)
    requires s.size + |comps| <= AddCapacity(s.size, s.capacity, |comps|)
    ensures var r := AddComponent(s, masks, comps, junk).0;
      r.registry == if MaskOf(masks) in KeySet(s.groups) then s.registry else RegisterGroup(s.registry, masks, s.self)
  {
  }

  /**
   * addComponent appends the batch to what the storage held under the
   * masks' GroupMask and changes nothing else the storage holds.
   */
  lemma AddComponentContents<T>(s: Store<T>, masks: seq<int>, comps: seq<T>, junk: T)
    requires Valid(s) && OccursOnce(masks, s.self)
    requires s.size + |comps| <= AddCapacity(s.size, s.capacity, |comps|)
    ensures var m := MaskOf(masks);
      Contents(AddComponent(s, masks, comps, junk).0) == Contents(s)[m := Held(s, m) + comps]
  {
    var m := MaskOf(masks);
    var u := Reserve(s, masks, |comps|, junk);
    ReserveContents(s, masks, |comps|, junk);
    AddToGroupMap(u.0, u.1, comps);
    UpdateTwice(Contents(s), Contents(u.0), Contents(AddToGroup(u.0, u.1, comps)), m, Held(s, m), comps);
  }

  /** Updating a key twice, the second time to the first value extended, is updating it once. */
  lemma UpdateTwice<K, T>(c0: map<K, seq<T>>, c1: map<K, seq<T>>, c2: map<K, seq<T>>, m: K, h: seq<T>, comps: seq<T>)
    requires c1 == c0[m := h] && c2 == c1[m := c1[m] + comps]
    ensures c2 == c0[m := h + comps]
  {
  }

  /** grow keeps what the storage holds: the groups stay where they are and the old slots are copied. */
  lemma GrowContents<T>(s: Store<T>, newCapacity: int, junk: T)
    requires Valid(s)
    ensures Contents(Grow(s, newCapacity, junk)) == Contents(s)
  {
    var r := Grow(s, newCapacity, junk);
    forall m | m in Contents(s)
      ensures Contents(r)[m] == Contents(s)[m]
    {
      var g := s.groups[Find(s.groups, m)].g;
      assert forall i :: 0 <= i < g.size ==> r.data[PhysOf(g, i)] == s.data[PhysOf(g, i)];
    }
  }

  /** getComponentGroup adds an empty sequence for a new mask and keeps every other one. */
  lemma GetComponentGroupContents<T>(s: Store<T>, masks: seq<int>)
    requires Valid(s) && OccursOnce(masks, s.self)
    ensures var m := MaskOf(masks);
      Contents(GetComponentGroup(s, masks).0) == Contents(s)[m := Held(s, m)]
  {
    var m := MaskOf(masks);
    var u := GetComponentGroup(s, masks);
    if m !in KeySet(s.groups) {
      ContentsInserted(s, u.0, u.1, m);
    }
  }

  /** Inserting an empty group for a new mask adds an empty sequence under it and keeps every other one. */
  lemma ContentsInserted<T>(s: Store<T>, r: Store<T>, k: int, m: GroupMask)
    requires Valid(s) && Valid(r) && 0 <= k <= |s.groups| && m !in KeySet(s.groups)
    requires r.data == s.data && r.groups == InsertGroup(s.groups, k, m)
    ensures Contents(r) == Contents(s)[m := []]
  {
    InsertGroupKeys(s.groups, k, m);
    FindUnique(r.groups, k);
    assert Contents(r)[m] == [];
    forall x | x in Contents(s)
      ensures Contents(r)[x] == Contents(s)[x]
    {
      var j := Find(s.groups, x);
      var j' := if j < k then j else j + 1;
      FindUnique(r.groups, j');
      assert r.groups[j'] == s.groups[j];
    }
    MapAdded(Contents(r), Contents(s), m, []);
  }

  /** A map with the keys of b and m, that agrees with b and holds v at m, is b updated at m. */
  lemma MapAdded<K, V>(a: map<K, V>, b: map<K, V>, m: K, v: V)
    requires a.Keys == b.Keys + {m} && a[m] == v
    requires forall x :: x in b ==> a[x] == b[x]
    ensures a == b[m := v]
  {
  }

  /** AddToGroup appends the batch to the sequence of group k's mask and keeps every other one. */
  lemma AddToGroupMap<T>(s: Store<T>, k: int, comps: seq<T>)
    requires Valid(s) && 0 <= k < |s.groups| && Used(s.groups) + |comps| <= s.capacity
    ensures s.groups[k].key in Contents(s)
    ensures var m := s.groups[k].key;
      Contents(AddToGroup(s, k, comps)) == Contents(s)[m := Contents(s)[m] + comps]
  {
    AddToGroupContents(s, k, comps);
    ContentsUpdated(s, AddToGroup(s, k, comps), k, View(s.data, s.groups[k].g) + comps);
  }

  /**
   * The single-record addComponent: a batch of one, answering the slot of
   * the group's last record. That slot holds the new record.
   */
  function AddOne<T>(s: Store<T>, masks: seq<int>, comp: T, junk: T): (r: (Store<T>, int))
    requires Valid(s) && OccursOnce(masks, s.self)
    requires s.size + 1 <= AddCapacity(s.size, s.capacity, 1)
    ensures Valid(r.0) && 0 <= r.1 < |r.0.data| && r.0.data[r.1] == comp
    ensures r.0.self == s.self && r.0.size == s.size + 1 && r.0.capacity == AddCapacity(s.size, s.capacity, 1)
  {
    var a := AddComponent(s, masks, [comp], junk);
    LastRecordAdded(s, masks, comp, junk);
    (a.0, GetLastComponent(a.0.groups[a.1].g))
  }

  /** The single-record add appends the record to what the storage held under the masks' GroupMask. */
  lemma AddOneContents<T>(s: Store<T>, masks: seq<int>, comp: T, junk: T)
    requires Valid(s) && OccursOnce(masks, s.self)
    requires s.size + 1 <= AddCapacity(s.size, s.capacity, 1)
    ensures var m := MaskOf(masks); Contents(AddOne(s, masks, comp, junk).0) == Contents(s)[m := Held(s, m) + [comp]]
  {
    AddComponentContents(s, masks, [comp], junk);
  }

  /** After adding one record, the group is not empty and its last record is the new one. */
  lemma LastRecordAdded<T>(s: Store<T>, masks: seq<int>, comp: T, junk: T)
    requires Valid(s) && OccursOnce(masks, s.self)
    requires s.size + 1 <= AddCapacity(s.size, s.capacity, 1)
    ensures var a := AddComponent(s, masks, [comp], junk); var g := a.0.groups[a.1].g;
      Fits(a.0.data, g) && g.size >= 1 && a.0.data[GetLastComponent(g)] == comp
  {
    var a := AddComponent(s, masks, [comp], junk);
    AddComponentContents(s, masks, [comp], junk);
    ContentsAt(a.0, a.1);
    var g := a.0.groups[a.1].g;
    assert View(a.0.data, g) == Held(s, MaskOf(masks)) + [comp];
    GetLastComponentReadsLast(a.0.data, g);
  }

  /**
   * Adding a record and then removing it again by its position, the end of
   * the group, gives back what the storage held, plus an empty sequence
   * under the mask when the add created the group.
   */
  lemma AddOneThenRemove<T>(s: Store<T>, masks: seq<int>, comp: T, junk: T)
    requires Valid(s) && OccursOnce(masks, s.self)
    requires s.size + 1 <= AddCapacity(s.size, s.capacity, 1)
    ensures var m := MaskOf(masks); var a := AddOne(s, masks, comp, junk).0;
      m in KeySet(a.groups) && |Held(s, m)| < a.groups[Find(a.groups, m)].g.size
      && Contents(RemoveComponent(a, |Held(s, m)|, m)) == Contents(s)[m := Held(s, m)]
  {
    var m := MaskOf(masks);
    AddOneContents(s, masks, comp, junk);
    var a := AddOne(s, masks, comp, junk).0;
    RemoveLastAdded(a, m, Held(s, m), comp);
    UpdateOverride(Contents(s), m, Held(s, m) + [comp], Held(s, m));
  }

  /** A storage holding h + [x] under m, after removing position |h| of m, holds h there and nothing else changed. */
  lemma RemoveLastAdded<T>(a: Store<T>, m: GroupMask, h: seq<T>, x: T)
    requires Valid(a) && m in Contents(a) && Contents(a)[m] == h + [x]
    ensures m in KeySet(a.groups) && |h| < a.groups[Find(a.groups, m)].g.size
    ensures Contents(RemoveComponent(a, |h|, m)) == Contents(a)[m := h]
  {
    assert (h + [x])[..|h|] + (h + [x])[|h| + 1..] == h;
    RemoveHeldAt(a, |h|, m, h + [x], h);
  }

  /** For masks whose group exists, adding a record and removing it again leaves the storage holding what it held. */
  lemma AddOneThenRemoveRestores<T>(s: Store<T>, masks: seq<int>, comp: T, junk: T)
    requires Valid(s) && OccursOnce(masks, s.self) && MaskOf(masks) in KeySet(s.groups)
    requires s.size + 1 <= AddCapacity(s.size, s.capacity, 1)
    ensures var m := MaskOf(masks); var a := AddOne(s, masks, comp, junk).0;
      m in KeySet(a.groups) && |Held(s, m)| < a.groups[Find(a.groups, m)].g.size
      && Contents(RemoveComponent(a, |Held(s, m)|, m)) == Contents(s)
  {
    AddOneThenRemove(s, masks, comp, junk);
    UpdateSame(Contents(s), MaskOf(masks), Held(s, MaskOf(masks)));
  }

  /** A second update of a key overrides the first. */
  lemma UpdateOverride<K, V>(c: map<K, V>, m: K, v: V, w: V)
    ensures c[m := v][m := w] == c[m := w]
  {
  }

  /** Updating a key to the value it holds changes nothing. */
  lemma UpdateSame<K, V>(c: map<K, V>, m: K, v: V)
    requires m in c && c[m] == v
    ensures c[m := v] == c
  {
  }

  /** Updating a key to h plus one value and then to that without it is updating it to h. */
  lemma UpdateUndone<K, T>(c0: map<K, seq<T>>, c1: map<K, seq<T>>, c2: map<K, seq<T>>, m: K, h: seq<T>, x: T)
    requires c1 == c0[m := h + [x]] && m in c1 && c2 == c1[m := c1[m][..|h|] + c1[m][|h| + 1..]]
    ensures c2 == c0[m := h]
  {
    assert c1[m][..|h|] + c1[m][|h| + 1..] == h;
  }
}
