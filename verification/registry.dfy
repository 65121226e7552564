/**
 * The entity registry (src/ravine/ecs/EntityRegistry.hpp): entity ids, the
 * archetype each entity was created with, immediate and deferred removal,
 * and the flush that carries out the deferred removals.
 *
 * The static members of the source (every ComponentStorage<T> singleton,
 * the registry vector, the vacancy queue, the pending removal map and the
 * set of storages to clean) are gathered into one World record. Every
 * storage holds Records: the storage of EntityProxy holds Proxy records,
 * the others component values.
 */
module Registry {
  import opened FastMath
  import opened Masks
  import opened Groups
  import opened Storage
  import opened Removal
  import opened Adding
  import opened Iterators
  import opened Lookup

  /** The handle value of a removed entity. No header of the modelled files declares InvalidEntity (Entity.hpp declares only Entity), so any negative id serves. */
  const InvalidEntity: int := -1

  /** What a storage holds: EntityProxy {entityId, groupId} in the proxy storage, a component elsewhere. */
  datatype Record<T> = Proxy(entityId: int, groupId: int) | Comp(value: T)

  /** EntityReg: the entity's id, its position in its group, and its storage identities (typesCount is their number). */
  datatype EntityReg = EntityReg(uniqueId: int, groupId: int, compTypes: seq<int>)

  /**
   * The state the source keeps in statics: the identity of the EntityProxy
   * storage, the storages by identity (only those getInstance() has
   * created), entityRegistry, entTableVacancy (front first), entIdToDestroy
   * as a list in GroupMaskCmp order, and storagesToDestroy.
   */
  datatype World<T> = World(proxyType: int, storages: map<int, Store<Record<T>>>,
                            entities: seq<EntityReg>, vacancy: seq<int>,
                            pending: seq<Pending>, toDestroy: set<int>)

  /**
   * A storage of identity t as the registry keeps it: valid, and with room
   * for one more record, which single-record adds preserve (the capacity
   * starts at 10 and grows by a fifth once the size reaches it).
   */
  predicate StorageOk<T>(t: int, s: Store<T>) {
    Valid(s) && s.self == t && 5 <= s.capacity && s.size < s.capacity
  }

  predicate StoragesOk<T>(sts: map<int, Store<T>>) {
    forall t :: t in sts ==> StorageOk(t, sts[t])
  }

  predicate WorldValid<T>(w: World<T>) {
    StoragesOk(w.storages) && SortedPending(w.pending)
    && forall i :: 0 <= i < |w.vacancy| ==> 0 <= w.vacancy[i] < |w.entities|
  }

  /** The ComponentStorage constructor: no groups, no registry, capacity 10, whose slots hold junk. */
  function NewStore<T>(t: int, junk: T): (s: Store<T>)
    ensures StorageOk(t, s) && s.size == 0 && Contents(s) == map[]
  {
    Store(t, 0, 10, seq(10, _ => junk), [], map[])
  }

  /** getInstance(): the storage of identity t, a new one when none was made yet. */
  function Instance<T>(sts: map<int, Store<T>>, t: int, junk: T): (s: Store<T>)
    requires StoragesOk(sts)
    ensures StorageOk(t, s)
  {
    if t in sts then sts[t] else NewStore(t, junk)
  }

  /** A single-record add keeps a storage as the registry keeps it. */
  lemma AddOneOk<T>(t: int, s: Store<T>, masks: seq<int>, comp: T, junk: T)
    requires StorageOk(t, s) && OccursOnce(masks, t)
    ensures s.size + 1 <= AddCapacity(s.size, s.capacity, 1)
    ensures StorageOk(t, AddOne(s, masks, comp, junk).0)
  {
  }

  lemma NoDupOccursOnce(s: seq<int>, i: int)
    requires NoDup(s) && 0 <= i < |s|
    ensures OccursOnce(s, s[i])
  {
  }

  /** The records createEntity stores: the proxy first, then one per component, in type-list order. */
  function Records<T>(id: int, groupId: int, comps: seq<T>): (r: seq<Record<T>>)
    ensures |r| == |comps| + 1 && r[0] == Proxy(id, groupId)
    ensures forall i :: 0 <= i < |comps| ==> r[i + 1] == Comp(comps[i])
  {
    [Proxy(id, groupId)] + seq(|comps|, i requires 0 <= i < |comps| => Comp(comps[i]))
  }

  /** The index of x in s. */
  function IndexOf(s: seq<int>, x: int): (i: int)
    requires x in s
    ensures 0 <= i < |s| && s[i] == x
    ensures NoDup(s) ==> forall j :: 0 <= j < |s| && s[j] == x ==> j == i
  {
    if s[0] == x then 0 else 1 + IndexOf(s[1..], x)
  }

  /**
   * createComponents: the single-record addComponent of recs[j] into the
   * storage of identity masks[j], with the whole mask array, for every j.
   * The identities are distinct, so each storage receives one record and
   * the adds do not interfere: they are taken together as one update.
   */
  function AddRecords<T>(sts: map<int, Store<Record<T>>>, masks: seq<int>, recs: seq<Record<T>>,
                         junk: Record<T>): (r: map<int, Store<Record<T>>>)
    requires StoragesOk(sts) && NoDup(masks) && |recs| == |masks|
    ensures StoragesOk(r)
    ensures forall t :: t !in masks ==> (t in r <==> t in sts) && (t in sts ==> r[t] == sts[t])
  {
    map t | t in sts.Keys + (set x | x in masks) :: AddedOrKept(sts, t, masks, recs, junk)
  }

  /** The storage of identity t after createComponents: added to when t is listed, as it was otherwise. */
  function AddedOrKept<T>(sts: map<int, Store<Record<T>>>, t: int, masks: seq<int>, recs: seq<Record<T>>,
                          junk: Record<T>): (s: Store<Record<T>>)
    requires StoragesOk(sts) && NoDup(masks) && |recs| == |masks| && (t in sts || t in masks)
    ensures StorageOk(t, s)
    ensures t !in masks ==> s == sts[t]
  {
    if t in masks then AddedTo(sts, t, masks, recs[IndexOf(masks, t)], junk) else sts[t]
  }

  /** createComponent: the single-record addComponent of rec into the storage of identity t. */
  function AddedTo<T>(sts: map<int, Store<Record<T>>>, t: int, masks: seq<int>, rec: Record<T>,
                      junk: Record<T>): (s: Store<Record<T>>)
    requires StoragesOk(sts) && NoDup(masks) && t in masks
    ensures StorageOk(t, s)
  {
    NoDupOccursOnce(masks, IndexOf(masks, t));
    AddOneOk(t, Instance(sts, t, junk), masks, rec, junk);
    AddOne(Instance(sts, t, junk), masks, rec, junk).0
  }

  /** What the storage of identity t holds, nothing when getInstance() has not created it yet. */
  ghost function ContentsIn<T>(sts: map<int, Store<T>>, t: int): map<GroupMask, seq<T>>
    requires StoragesOk(sts)
  {
    if t in sts then Contents(sts[t]) else map[]
  }

  /** What the storage of identity t holds under m. */
  ghost function HeldIn<T>(sts: map<int, Store<T>>, t: int, m: GroupMask): seq<T>
    requires StoragesOk(sts)
  {
    if t in sts then Held(sts[t], m) else []
  }

  /** Adding rec to the storage of t appends it under the masks' GroupMask. */
  lemma AddedToContents<T>(sts: map<int, Store<Record<T>>>, t: int, masks: seq<int>, rec: Record<T>, junk: Record<T>)
    requires StoragesOk(sts) && NoDup(masks) && t in masks
    ensures var m := MaskOf(masks);
      Contents(AddedTo(sts, t, masks, rec, junk)) == ContentsIn(sts, t)[m := HeldIn(sts, t, m) + [rec]]
  {
    NoDupOccursOnce(masks, IndexOf(masks, t));
    InstanceHolds(sts, t, MaskOf(masks), junk);
    AddOneContents(Instance(sts, t, junk), masks, rec, junk);
  }

  /** The storage getInstance() answers holds what the world holds for its identity. */
  lemma InstanceHolds<T>(sts: map<int, Store<T>>, t: int, m: GroupMask, junk: T)
    requires StoragesOk(sts)
    ensures Contents(Instance(sts, t, junk)) == ContentsIn(sts, t)
    ensures Held(Instance(sts, t, junk), m) == HeldIn(sts, t, m)
  {
  }

  /** createComponents appends recs[j] to what the storage of masks[j] holds under the masks' GroupMask. */
  lemma AddRecordsAt<T>(sts: map<int, Store<Record<T>>>, masks: seq<int>, recs: seq<Record<T>>, junk: Record<T>, j: int)
    requires StoragesOk(sts) && NoDup(masks) && |recs| == |masks| && 0 <= j < |masks|
    ensures var r := AddRecords(sts, masks, recs, junk); var t := masks[j]; var m := MaskOf(masks);
      t in r && Contents(r[t]) == ContentsIn(sts, t)[m := HeldIn(sts, t, m) + [recs[j]]]
  {
    assert IndexOf(masks, masks[j]) == j;
    AddedToContents(sts, masks[j], masks, recs[j], junk);
  }

  // ---------------------------------------------------------------------------
  // getComponentIterators

  /** Every listed storage that exists registers at most 50 masks under the list's key. */
  predicate IteratorsFit<T>(w: World<T>, types: seq<int>)
    requires StoragesOk(w.storages)
  {
    forall t :: t in types && t in w.storages && PackMask(types) in w.storages[t].registry ==>
      |w.storages[t].registry[PackMask(types)]| <= MaxGroups
  }

  /**
   * getComponentIterator<T>(mask) for the storage of identity t. A storage
   * getInstance() has not made yet would be made empty, with an empty
   * registry, so it yields no iterators.
   */
  function StorageIterators<T>(w: World<T>, t: int, key: int): (r: seq<CompIt>)
    requires StoragesOk(w.storages)
    requires t in w.storages && key in w.storages[t].registry ==> |w.storages[t].registry[key]| <= MaxGroups
    ensures t !in w.storages || key !in w.storages[t].registry ==> r == []
    ensures t in w.storages && key in w.storages[t].registry ==>
      var s := w.storages[t]; var order := Ascending(s.registry[key]);
      |r| == |order| == |s.registry[key]|
      && forall i :: 0 <= i < |r| ==>
           order[i] in KeySet(s.groups) && r[i] == GroupIt(s.groups[Find(s.groups, order[i])].g)
  {
    if t in w.storages then GetComponentIterator(w.storages[t], key) else []
  }

  /**
   * getComponentIterators<Ts...>(): the key is the MaskPack sum of the
   * listed identities, and each storage of the list is asked for its
   * iterators under that one key, in list order.
   */
  function GetComponentIterators<T>(w: World<T>, types: seq<int>): (r: seq<seq<CompIt>>)
    requires StoragesOk(w.storages) && IteratorsFit(w, types)
    ensures |r| == |types|
    ensures forall i :: 0 <= i < |types| ==>
      (types[i] !in w.storages || PackMask(types) !in w.storages[types[i]].registry ==> r[i] == [])
      && (types[i] in w.storages && PackMask(types) in w.storages[types[i]].registry ==>
            |r[i]| == |w.storages[types[i]].registry[PackMask(types)]|)
  {
    var key := PackMask(types);
    seq(|types|, i requires 0 <= i < |types| => StorageIterators(w, types[i], key))
  }

  /**
   * The iterators do not depend on the order of the type list: listing
   * the same identities in another order yields, for each identity, the
   * same iterators.
   */
  lemma IteratorsOrderFree<T>(w: World<T>, a: seq<int>, b: seq<int>)
    requires StoragesOk(w.storages) && IteratorsFit(w, a) && multiset(a) == multiset(b)
    ensures IteratorsFit(w, b)
    ensures forall i, j :: 0 <= i < |a| && 0 <= j < |b| && a[i] == b[j] ==>
      GetComponentIterators(w, a)[i] == GetComponentIterators(w, b)[j]
  {
    PackMaskPermutation(a, b);
    forall t | t in b
      ensures t in a
    {
      assert t in multiset(b);
    }
  }

  // ---------------------------------------------------------------------------
  // createEntity

  /** The id createEntity hands out: the front of the vacancy queue, else the registry's length. */
  function NextId<T>(w: World<T>): int {
    if |w.vacancy| > 0 then w.vacancy[0] else |w.entities|
  }

  /**
   * Both createEntity overloads, with the groupId they record: the entry
   * for the id gets uniqueId id, that groupId and the storage identities
   * [EntityProxy, T1..Tn]; the proxy {id, groupId} goes into the proxy
   * storage, then each component into its own, all with that mask array.
   * The default-constructing overload is this one given default values.
   */
  function Create<T>(w: World<T>, types: seq<int>, comps: seq<T>, groupId: int, junk: Record<T>): (r: (World<T>, int))
    requires WorldValid(w) && |comps| == |types| && NoDup([w.proxyType] + types)
    ensures WorldValid(r.0) && r.1 == NextId(w) && 0 <= r.1 < |r.0.entities|
    ensures r.0.entities[r.1] == EntityReg(r.1, groupId, [w.proxyType] + types)
    ensures |r.0.entities| == if |w.vacancy| > 0 then |w.entities| else |w.entities| + 1
    ensures forall e :: 0 <= e < |w.entities| && e != r.1 ==> r.0.entities[e] == w.entities[e]
    ensures r.0.vacancy == if |w.vacancy| > 0 then w.vacancy[1..] else w.vacancy
    ensures r.0 == w.(storages := r.0.storages, entities := r.0.entities, vacancy := r.0.vacancy)
  {
    var id := NextId(w);
    var masks := [w.proxyType] + types;
    var reg := EntityReg(id, groupId, masks);
    var entities := if |w.vacancy| > 0 then w.entities[id := reg] else w.entities + [reg];
    var vacancy := if |w.vacancy| > 0 then w.vacancy[1..] else w.vacancy;
    (w.(storages := AddRecords(w.storages, masks, Records(id, groupId, comps), junk),
        entities := entities, vacancy := vacancy), id)
  }

  /** createEntity as written: the entry and the proxy carry groupId -1, so removeEntity may not be applied to the new entity. */
  function CreateEntity<T>(w: World<T>, types: seq<int>, comps: seq<T>, junk: Record<T>): (r: (World<T>, int))
    requires WorldValid(w) && |comps| == |types| && NoDup([w.proxyType] + types)
    ensures WorldValid(r.0) && r.1 == NextId(w) && 0 <= r.1 < |r.0.entities|
    ensures r.0.entities[r.1] == EntityReg(r.1, -1, [w.proxyType] + types)
    ensures !EntityRemovable(r.0, r.1)
    ensures |r.0.entities| == if |w.vacancy| > 0 then |w.entities| else |w.entities| + 1
    ensures r.0.vacancy == if |w.vacancy| > 0 then w.vacancy[1..] else w.vacancy
    ensures r.0.proxyType == w.proxyType
  {
    Create(w, types, comps, -1, junk)
  }

  /**
   * No code enqueues onto the vacancy queue, so it stays empty, and from an
   * empty queue createEntity hands out the registry's length and grows the
   * registry by one: successive ids count up from the registry's length,
   * each new.
   */
  lemma FreshId<T>(w: World<T>, types: seq<int>, comps: seq<T>, junk: Record<T>)
    requires WorldValid(w) && |comps| == |types| && NoDup([w.proxyType] + types) && w.vacancy == []
    ensures var c := CreateEntity(w, types, comps, junk);
      c.1 == |w.entities| && |c.0.entities| == c.1 + 1 && c.0.vacancy == []
  {
  }

  /** The number of records a storage keeps under m: the size of its group, 0 when it has none. */
  function GroupSize<T>(s: Store<T>, m: GroupMask): (n: int)
    requires Valid(s)
    ensures n == |Held(s, m)|
  {
    if m in KeySet(s.groups) then s.groups[Find(s.groups, m)].g.size else 0
  }

  /**
   * createEntity recording the position the entity takes in its group: the
   * number of records the proxy storage held under the archetype's mask
   * before the add.
   */
  function CreateEntityCorrected<T>(w: World<T>, types: seq<int>, comps: seq<T>, junk: Record<T>): (r: (World<T>, int))
    requires WorldValid(w) && |comps| == |types| && NoDup([w.proxyType] + types)
    ensures WorldValid(r.0) && r.1 == NextId(w) && 0 <= r.1 < |r.0.entities|
    ensures r.0.entities[r.1] == EntityReg(r.1, |HeldIn(w.storages, w.proxyType, MaskOf([w.proxyType] + types))|,
                                           [w.proxyType] + types)
  {
    var gid := GroupSize(Instance(w.storages, w.proxyType, junk), MaskOf([w.proxyType] + types));
    InstanceHolds(w.storages, w.proxyType, MaskOf([w.proxyType] + types), junk);
    Create(w, types, comps, gid, junk)
  }

  /**
   * What createEntity stores: the j-th storage of [EntityProxy, T1..Tn]
   * holds, under the archetype's GroupMask, what it held there followed by
   * the j-th record (the proxy first, then the components in order); every
   * other storage is left as it was.
   */
  lemma CreateContents<T>(w: World<T>, types: seq<int>, comps: seq<T>, groupId: int, junk: Record<T>)
    requires WorldValid(w) && |comps| == |types| && NoDup([w.proxyType] + types)
    ensures var r := Create(w, types, comps, groupId, junk).0;
      Appended(w.storages, r.storages, [w.proxyType] + types, Records(NextId(w), groupId, comps))
  {
    var masks := [w.proxyType] + types;
    var recs := Records(NextId(w), groupId, comps);
    forall j | 0 <= j < |masks|
      ensures var r := AddRecords(w.storages, masks, recs, junk); var m := MaskOf(masks);
        masks[j] in r && Contents(r[masks[j]]) == ContentsIn(w.storages, masks[j])[m := HeldIn(w.storages, masks[j], m) + [recs[j]]]
    {
      AddRecordsAt(w.storages, masks, recs, junk, j);
    }
  }

  /** Each storage masks[j] holds what it held before, with recs[j] appended under the masks' GroupMask. */
  ghost predicate Appended<T>(before: map<int, Store<T>>, after: map<int, Store<T>>, masks: seq<int>, recs: seq<T>)
    requires StoragesOk(before) && StoragesOk(after) && |recs| == |masks|
  {
    forall j :: 0 <= j < |masks| ==>
      masks[j] in after
      && ContentsIn(after, masks[j])
         == ContentsIn(before, masks[j])[MaskOf(masks) := HeldIn(before, masks[j], MaskOf(masks)) + [recs[j]]]
  }

  /** createEntity leaves every storage outside the archetype as it was. */
  lemma CreateElsewhere<T>(w: World<T>, types: seq<int>, comps: seq<T>, groupId: int, junk: Record<T>)
    requires WorldValid(w) && |comps| == |types| && NoDup([w.proxyType] + types)
    ensures var r := Create(w, types, comps, groupId, junk).0;
      forall t :: t !in [w.proxyType] + types ==>
        (t in r.storages <==> t in w.storages) && (t in w.storages ==> r.storages[t] == w.storages[t])
  {
  }

  // ---------------------------------------------------------------------------
  // removeEntity

  /**
   * What removeEntity hands to the storages has to be acceptable to
   * removeComponent: a registered entity whose storage identities are
   * distinct, whose groupId is a position (never -1), and whose every
   * storage keeps more than groupId records under its GroupMask.
   */
  predicate EntityRemovable<T>(w: World<T>, e: int)
    requires WorldValid(w)
  {
    0 <= e < |w.entities| && NoDup(w.entities[e].compTypes) && 0 <= w.entities[e].groupId
    && forall t :: t in w.entities[e].compTypes ==>
         t in w.storages && w.entities[e].groupId < GroupSize(w.storages[t], MaskOf(w.entities[e].compTypes))
  }

  /** removeComponent(pos, m) on the storage of every identity in types. */
  function RemoveFrom<T>(sts: map<int, Store<Record<T>>>, types: seq<int>, pos: int, m: GroupMask): (r: map<int, Store<Record<T>>>)
    requires StoragesOk(sts)
    requires forall t :: t in types ==> t in sts && 0 <= pos < GroupSize(sts[t], m)
    ensures StoragesOk(r) && r.Keys == sts.Keys
    ensures forall t :: t in sts && t !in types ==> r[t] == sts[t]
  {
    map t | t in sts :: if t in types then RemovedFrom(sts[t], t, pos, m) else sts[t]
  }

  /** removeComponent(pos, m) on one storage: a storage the registry keeps stays one. */
  function RemovedFrom<T>(s: Store<T>, t: int, pos: int, m: GroupMask): (r: Store<T>)
    requires StorageOk(t, s) && 0 <= pos < GroupSize(s, m)
    ensures StorageOk(t, r)
  {
    RemoveComponent(s, pos, m)
  }

  /**
   * removeEntity: removeComponent(groupId, GroupMask(compTypes)) on every
   * storage of the entity, then the entry gets uniqueId InvalidEntity and
   * groupId -1 and the handle becomes InvalidEntity. The id is not queued
   * for reuse and nothing else changes.
   */
  function RemoveEntity<T>(w: World<T>, e: int): (r: (World<T>, int))
    requires WorldValid(w) && EntityRemovable(w, e)
    ensures WorldValid(r.0) && r.1 == InvalidEntity
    ensures r.0.entities == w.entities[e := EntityReg(InvalidEntity, -1, w.entities[e].compTypes)]
    ensures r.0 == w.(storages := r.0.storages, entities := r.0.entities)
    ensures r.0.storages.Keys == w.storages.Keys
    ensures !EntityRemovable(r.0, e)
  {
    var reg := w.entities[e];
    var sts := RemoveFrom(w.storages, reg.compTypes, reg.groupId, MaskOf(reg.compTypes));
    (w.(storages := sts, entities := w.entities[e := EntityReg(InvalidEntity, -1, reg.compTypes)]), InvalidEntity)
  }

  /**
   * What removeEntity leaves: every storage of the entity holds, under its
   * GroupMask, what it held without the record at position groupId; the
   * other storages are as they were.
   */
  lemma RemoveEntityContents<T>(w: World<T>, e: int)
    requires WorldValid(w) && EntityRemovable(w, e)
    ensures var r := RemoveEntity(w, e).0; var reg := w.entities[e];
      RemovedAt(w.storages, r.storages, reg.compTypes, MaskOf(reg.compTypes), reg.groupId)
    ensures var r := RemoveEntity(w, e).0;
      forall t :: t in w.storages && t !in w.entities[e].compTypes ==> r.storages[t] == w.storages[t]
  {
    var reg := w.entities[e];
    var m := MaskOf(reg.compTypes);
    var after := RemoveEntity(w, e).0.storages;
    assert after == RemoveFrom(w.storages, reg.compTypes, reg.groupId, m);
    RemoveFromContents(w.storages, reg.compTypes, reg.groupId, m, after);
  }

  /** RemoveFrom removes the record at pos under m from every listed storage. */
  lemma RemoveFromContents<T>(sts: map<int, Store<Record<T>>>, types: seq<int>, pos: int, m: GroupMask,
                              after: map<int, Store<Record<T>>>)
    requires StoragesOk(sts) && forall t :: t in types ==> t in sts && 0 <= pos < GroupSize(sts[t], m)
    requires after == RemoveFrom(sts, types, pos, m)
    ensures StoragesOk(after) && RemovedAt(sts, after, types, m, pos)
  {
    forall t | t in types
      ensures t in sts && t in after && m in ContentsIn(sts, t) && 0 <= pos < |ContentsIn(sts, t)[m]|
      ensures var v := ContentsIn(sts, t)[m]; ContentsIn(after, t) == ContentsIn(sts, t)[m := v[..pos] + v[pos + 1..]]
    {
      RemovedFromContents(sts, types, pos, m, after, t);
    }
  }

  /** What RemoveFrom leaves in one of the listed storages. */
  lemma RemovedFromContents<T>(sts: map<int, Store<Record<T>>>, types: seq<int>, pos: int, m: GroupMask,
                               after: map<int, Store<Record<T>>>, t: int)
    requires StoragesOk(sts) && forall t :: t in types ==> t in sts && 0 <= pos < GroupSize(sts[t], m)
    requires after == RemoveFrom(sts, types, pos, m) && t in types
    ensures t in sts && t in after && m in ContentsIn(sts, t) && 0 <= pos < |ContentsIn(sts, t)[m]|
    ensures var v := ContentsIn(sts, t)[m]; ContentsIn(after, t) == ContentsIn(sts, t)[m := v[..pos] + v[pos + 1..]]
  {
    assert after[t] == RemovedFrom(sts[t], t, pos, m);
    RemoveComponentContents(sts[t], pos, m);
  }

  /** Each storage of types holds, under m, what it held without the record at position pos. */
  ghost predicate RemovedAt<T>(before: map<int, Store<T>>, after: map<int, Store<T>>, types: seq<int>, m: GroupMask, pos: int)
    requires StoragesOk(before) && StoragesOk(after)
  {
    forall t :: t in types ==>
      t in before && t in after && m in ContentsIn(before, t) && 0 <= pos < |ContentsIn(before, t)[m]|
      && ContentsIn(after, t) == ContentsIn(before, t)[m := ContentsIn(before, t)[m][..pos] + ContentsIn(before, t)[m][pos + 1..]]
  }

  // ---------------------------------------------------------------------------
  // The groupId of the entities that stay

  /**
   * The registry entry of e still leads to e's records: removeEntity may be
   * applied to e, its storages include the proxy storage, and the proxy
   * record at its groupId is e's own.
   */
  ghost predicate Tracks<T>(w: World<T>, e: int)
    requires WorldValid(w)
  {
    EntityRemovable(w, e) && w.proxyType in w.entities[e].compTypes
    && var h := Held(w.storages[w.proxyType], MaskOf(w.entities[e].compTypes));
       h[w.entities[e].groupId].Proxy? && h[w.entities[e].groupId].entityId == e
  }

  /**
   * The storages after removing position pos under m0 from the storages of
   * types: what one storage holds under any mask.
   */
  lemma HeldAfter<T>(before: map<int, Store<T>>, after: map<int, Store<T>>, types: seq<int>, m0: GroupMask, pos: int, t: int, m: GroupMask)
    requires StoragesOk(before) && StoragesOk(after) && after.Keys == before.Keys && RemovedAt(before, after, types, m0, pos)
    requires forall u :: u in before && u !in types ==> after[u] == before[u]
    requires t in before
    ensures var h := Held(before[t], m);
      t in after && Held(after[t], m) == if t in types && m == m0 then h[..pos] + h[pos + 1..] else h
  {
    if t in types {
      assert ContentsIn(after, t) == Contents(after[t]) && ContentsIn(before, t) == Contents(before[t]);
    }
  }

  /**
   * removeEntity as written leaves the other entries alone, so when two
   * entities of one archetype are tracked and b holds the last position of
   * the group, removing a leaves b's groupId past the end of the group:
   * removeEntity may no longer be applied to b.
   */
  lemma RemovalStrandsLastEntity<T>(w: World<T>, a: int, b: int)
    requires WorldValid(w) && Tracks(w, a) && Tracks(w, b) && a != b
    requires w.entities[b].compTypes == w.entities[a].compTypes
    requires w.entities[b].groupId + 1 == GroupSize(w.storages[w.proxyType], MaskOf(w.entities[a].compTypes))
    ensures RemoveEntity(w, a).0.entities[b] == w.entities[b]
    ensures !EntityRemovable(RemoveEntity(w, a).0, b)
  {
    var m := MaskOf(w.entities[a].compTypes);
    var sts := RemoveEntity(w, a).0.storages;
    RemoveEntityContents(w, a);
    HeldAfter(w.storages, sts, w.entities[a].compTypes, m, w.entities[a].groupId, w.proxyType, m);
    assert GroupSize(sts[w.proxyType], m) == w.entities[b].groupId;
  }

  /**
   * The registry entries after position gid leaves the group under m: every
   * entity behind it in that group moves one position down.
   */
  function Relabelled(es: seq<EntityReg>, m: GroupMask, gid: int): (r: seq<EntityReg>)
    ensures |r| == |es|
    ensures forall i :: 0 <= i < |es| ==>
      r[i] == if MaskOf(es[i].compTypes) == m && es[i].groupId > gid then es[i].(groupId := es[i].groupId - 1) else es[i]
  {
    seq(|es|, i requires 0 <= i < |es| =>
      if MaskOf(es[i].compTypes) == m && es[i].groupId > gid then es[i].(groupId := es[i].groupId - 1) else es[i])
  }

  /**
   * removeEntity as evidently intended: the storages change as in
   * removeEntity, the entry of e is invalidated, and every other entity of
   * e's archetype behind e in the group has its groupId lowered by one.
   */
  function RemoveEntityCorrected<T>(w: World<T>, e: int): (r: (World<T>, int))
    requires WorldValid(w) && EntityRemovable(w, e)
    ensures WorldValid(r.0) && r.1 == InvalidEntity
    ensures r.0.storages == RemoveEntity(w, e).0.storages
    ensures r.0 == w.(storages := r.0.storages, entities := r.0.entities)
    ensures |r.0.entities| == |w.entities|
    ensures r.0.entities[e] == EntityReg(InvalidEntity, -1, w.entities[e].compTypes)
    ensures forall i :: 0 <= i < |w.entities| && i != e ==>
      r.0.entities[i] == if MaskOf(w.entities[i].compTypes) == MaskOf(w.entities[e].compTypes) && w.entities[i].groupId > w.entities[e].groupId
                         then w.entities[i].(groupId := w.entities[i].groupId - 1) else w.entities[i]
    ensures !EntityRemovable(r.0, e)
  {
    var reg := w.entities[e];
    var r := RemoveEntity(w, e).0;
    var es := Relabelled(w.entities, MaskOf(reg.compTypes), reg.groupId)[e := EntityReg(InvalidEntity, -1, reg.compTypes)];
    (r.(entities := es), InvalidEntity)
  }

  /** Two tracked entities of one archetype sit at different positions of its group. */
  lemma TrackedApart<T>(w: World<T>, a: int, b: int)
    requires WorldValid(w) && Tracks(w, a) && Tracks(w, b) && a != b
    requires MaskOf(w.entities[a].compTypes) == MaskOf(w.entities[b].compTypes)
    ensures w.entities[a].groupId != w.entities[b].groupId
  {
    var h := Held(w.storages[w.proxyType], MaskOf(w.entities[a].compTypes));
    assert h[w.entities[a].groupId].entityId == a;
  }

  /**
   * After position ga under ma leaves the storages of ta, every storage of
   * b still has a record under b's mask at b's new position gb'.
   */
  lemma StaysRemovable<T>(w: World<T>, a: int, b: int, sts: map<int, Store<Record<T>>>, gb': int)
    requires WorldValid(w) && EntityRemovable(w, a) && EntityRemovable(w, b)
    requires MaskOf(w.entities[a].compTypes) == MaskOf(w.entities[b].compTypes) ==> w.entities[a].groupId != w.entities[b].groupId
    requires StoragesOk(sts) && sts.Keys == w.storages.Keys
    requires RemovedAt(w.storages, sts, w.entities[a].compTypes, MaskOf(w.entities[a].compTypes), w.entities[a].groupId)
    requires forall u :: u in w.storages && u !in w.entities[a].compTypes ==> sts[u] == w.storages[u]
    requires gb' == if MaskOf(w.entities[b].compTypes) == MaskOf(w.entities[a].compTypes) && w.entities[b].groupId > w.entities[a].groupId
                    then w.entities[b].groupId - 1 else w.entities[b].groupId
    ensures forall t :: t in w.entities[b].compTypes ==> t in sts && gb' < GroupSize(sts[t], MaskOf(w.entities[b].compTypes))
  {
    var ta, tb := w.entities[a].compTypes, w.entities[b].compTypes;
    forall t | t in tb
      ensures t in sts && gb' < GroupSize(sts[t], MaskOf(tb))
    {
      HeldAfter(w.storages, sts, ta, MaskOf(ta), w.entities[a].groupId, t, MaskOf(tb));
      if t in ta && MaskOf(tb) == MaskOf(ta) {
        assert w.entities[a].groupId < GroupSize(w.storages[t], MaskOf(ta));
      }
    }
  }

  /** Dropping position i keeps the record at j, one position down when it was behind i. */
  lemma DropKeeps<T>(h: seq<T>, i: int, j: int)
    requires 0 <= i < |h| && 0 <= j < |h| && i != j
    ensures (h[..i] + h[i + 1..])[if j > i then j - 1 else j] == h[j]
  {
  }

  /** Under the corrected removal, every other tracked entity stays tracked. */
  lemma {:induction false} RemovalKeepsOthersTracked<T>(w: World<T>, a: int, b: int)
    requires WorldValid(w) && Tracks(w, a) && Tracks(w, b) && a != b
    ensures Tracks(RemoveEntityCorrected(w, a).0, b)
  {
    var c := RemoveEntityCorrected(w, a).0;
    var ta, ga, gb := w.entities[a].compTypes, w.entities[a].groupId, w.entities[b].groupId;
    var m := MaskOf(w.entities[b].compTypes);
    if MaskOf(ta) == m {
      TrackedApart(w, a, b);
    }
    RemoveEntityContents(w, a);
    StaysRemovable(w, a, b, c.storages, c.entities[b].groupId);
    assert EntityRemovable(c, b);
    HeldAfter(w.storages, c.storages, ta, MaskOf(ta), ga, w.proxyType, m);
    if MaskOf(ta) == m {
      DropKeeps(Held(w.storages[w.proxyType], m), ga, gb);
    }
  }

  // ---------------------------------------------------------------------------
  // createEntity and removeEntity together

  /**
   * Every storage of the archetype keeps as many records under its
   * GroupMask as the proxy storage does, as when all of them came from
   * createEntity and went by removeEntity.
   */
  ghost predicate Balanced<T>(w: World<T>, masks: seq<int>)
    requires WorldValid(w)
  {
    forall t :: t in masks ==> |HeldIn(w.storages, t, MaskOf(masks))| == |HeldIn(w.storages, w.proxyType, MaskOf(masks))|
  }

  /**
   * With the corrected createEntity, the new entry's groupId is the position
   * of the entity's records in every storage of its archetype: the proxy
   * storage holds the entity's proxy there, the entity can be removed, and
   * the storages stay balanced.
   */
  lemma CreatedRemovable<T>(w: World<T>, types: seq<int>, comps: seq<T>, junk: Record<T>)
    requires WorldValid(w) && |comps| == |types| && NoDup([w.proxyType] + types) && Balanced(w, [w.proxyType] + types)
    ensures var c := CreateEntityCorrected(w, types, comps, junk); var gid := c.0.entities[c.1].groupId;
      var m := MaskOf([w.proxyType] + types);
      EntityRemovable(c.0, c.1) && Balanced(c.0, [w.proxyType] + types)
      && w.proxyType in c.0.storages && m in Contents(c.0.storages[w.proxyType])
      && 0 <= gid < |Contents(c.0.storages[w.proxyType])[m]| && Contents(c.0.storages[w.proxyType])[m][gid] == Proxy(c.1, gid)
  {
    var masks := [w.proxyType] + types;
    var m := MaskOf(masks);
    var gid := |HeldIn(w.storages, w.proxyType, m)|;
    var c := CreateEntityCorrected(w, types, comps, junk);
    assert c == Create(w, types, comps, gid, junk);
    CreateContents(w, types, comps, gid, junk);
    AddedInOrder(w.storages, c.0, masks, c.1, gid, comps);
  }

  /** The corrected createEntity leaves the new entity tracked by its registry entry. */
  lemma CreatedTracked<T>(w: World<T>, types: seq<int>, comps: seq<T>, junk: Record<T>)
    requires WorldValid(w) && |comps| == |types| && NoDup([w.proxyType] + types) && Balanced(w, [w.proxyType] + types)
    ensures var c := CreateEntityCorrected(w, types, comps, junk); Tracks(c.0, c.1)
  {
    var c := CreateEntityCorrected(w, types, comps, junk);
    CreatedRemovable(w, types, comps, junk);
    assert c.0.entities[c.1].compTypes == [w.proxyType] + types;
    assert ([w.proxyType] + types)[0] == w.proxyType;
  }

  /**
   * A world whose j-th archetype storage got the j-th record of entity id
   * appended at position gid, where every one of them held gid records
   * before: the entity can be removed, its proxy sits at gid, and the
   * storages are balanced again.
   */
  lemma AddedInOrder<T>(sts: map<int, Store<Record<T>>>, c: World<T>, masks: seq<int>, id: int, gid: int, comps: seq<T>)
    requires StoragesOk(sts) && WorldValid(c) && StoragesOk(c.storages)
    requires NoDup(masks) && |masks| == |comps| + 1 && masks[0] == c.proxyType
    requires forall t :: t in masks ==> |HeldIn(sts, t, MaskOf(masks))| == gid
    requires 0 <= id < |c.entities| && c.entities[id] == EntityReg(id, gid, masks)
    requires Appended(sts, c.storages, masks, Records(id, gid, comps))
    ensures var m := MaskOf(masks);
      EntityRemovable(c, id) && Balanced(c, masks)
      && c.proxyType in c.storages && m in Contents(c.storages[c.proxyType])
      && 0 <= gid < |Contents(c.storages[c.proxyType])[m]| && Contents(c.storages[c.proxyType])[m][gid] == Proxy(id, gid)
  {
    var m := MaskOf(masks);
    var recs := Records(id, gid, comps);
    forall t | t in masks
      ensures t in c.storages && |HeldIn(c.storages, t, m)| == gid + 1
    {
      var j := IndexOf(masks, t);
      OneMore(ContentsIn(sts, t), c.storages[t], m, HeldIn(sts, t, m), recs[j]);
    }
    OneMore(ContentsIn(sts, masks[0]), c.storages[masks[0]], m, HeldIn(sts, masks[0], m), recs[0]);
  }

  /**
   * Removing the entity the corrected createEntity has just made gives every
   * storage of its archetype back what it held (the archetype's group stays,
   * empty when the create made it) and leaves the other storages as they
   * were.
   */
  lemma CreateThenRemove<T>(w: World<T>, types: seq<int>, comps: seq<T>, junk: Record<T>)
    requires WorldValid(w) && |comps| == |types| && NoDup([w.proxyType] + types) && Balanced(w, [w.proxyType] + types)
    ensures var c := CreateEntityCorrected(w, types, comps, junk);
      EntityRemovable(c.0, c.1) && Restored(w.storages, RemoveEntity(c.0, c.1).0.storages, [w.proxyType] + types)
  {
    var masks := [w.proxyType] + types;
    var gid := |HeldIn(w.storages, w.proxyType, MaskOf(masks))|;
    var c := CreateEntityCorrected(w, types, comps, junk);
    CreatedRemovable(w, types, comps, junk);
    assert c == Create(w, types, comps, gid, junk);
    CreateContents(w, types, comps, gid, junk);
    CreateElsewhere(w, types, comps, gid, junk);
    RemovedAgain(w.storages, c.0, c.1, masks, Records(c.1, gid, comps), gid);
  }

  /**
   * The storages of the archetype masks hold again what they held in
   * before, with the archetype's group possibly added; the others are the
   * same storages.
   */
  ghost predicate Restored<T>(before: map<int, Store<T>>, after: map<int, Store<T>>, masks: seq<int>)
    requires StoragesOk(before) && StoragesOk(after)
  {
    (forall t :: t in masks ==>
       t in after && ContentsIn(after, t) == ContentsIn(before, t)[MaskOf(masks) := HeldIn(before, t, MaskOf(masks))])
    && (forall t :: t !in masks ==> (t in after <==> t in before) && (t in before ==> after[t] == before[t]))
  }

  /** removeEntity on the entity whose records a create appended at gid restores the storages. */
  lemma RemovedAgain<T>(sts: map<int, Store<Record<T>>>, c: World<T>, id: int, masks: seq<int>, recs: seq<Record<T>>, gid: int)
    requires StoragesOk(sts) && WorldValid(c) && |recs| == |masks|
    requires EntityRemovable(c, id) && c.entities[id] == EntityReg(id, gid, masks)
    requires forall t :: t in masks ==> |HeldIn(sts, t, MaskOf(masks))| == gid
    requires Appended(sts, c.storages, masks, recs)
    requires forall t :: t !in masks ==> (t in c.storages <==> t in sts) && (t in sts ==> c.storages[t] == sts[t])
    ensures Restored(sts, RemoveEntity(c, id).0.storages, masks)
  {
    RemoveEntityContents(c, id);
    Undone(sts, c.storages, RemoveEntity(c, id).0.storages, masks, recs, gid);
  }

  /** Appending one record at position gid of every storage and removing position gid again restores them. */
  lemma Undone<T>(sts: map<int, Store<T>>, mid: map<int, Store<T>>, after: map<int, Store<T>>,
                  masks: seq<int>, recs: seq<T>, gid: int)
    requires StoragesOk(sts) && StoragesOk(mid) && StoragesOk(after) && |recs| == |masks|
    requires forall t :: t in masks ==> |HeldIn(sts, t, MaskOf(masks))| == gid
    requires Appended(sts, mid, masks, recs) && RemovedAt(mid, after, masks, MaskOf(masks), gid)
    ensures forall t :: t in masks ==>
      t in after && ContentsIn(after, t) == ContentsIn(sts, t)[MaskOf(masks) := HeldIn(sts, t, MaskOf(masks))]
  {
    var m := MaskOf(masks);
    forall t | t in masks
      ensures t in after && ContentsIn(after, t) == ContentsIn(sts, t)[m := HeldIn(sts, t, m)]
    {
      var j := IndexOf(masks, t);
      UndoneFor(sts, mid, after, m, t, HeldIn(sts, t, m), recs[j], gid);
    }
  }

  /** The storage t, appended to and then cut at position gid = |h|, holds what it held before. */
  lemma UndoneFor<T>(sts: map<int, Store<T>>, mid: map<int, Store<T>>, after: map<int, Store<T>>,
                     m: GroupMask, t: int, h: seq<T>, x: T, gid: int)
    requires StoragesOk(sts) && StoragesOk(mid) && StoragesOk(after) && |h| == gid
    requires ContentsIn(mid, t) == ContentsIn(sts, t)[m := h + [x]]
    requires t in after && m in ContentsIn(mid, t) && 0 <= gid < |ContentsIn(mid, t)[m]|
    requires ContentsIn(after, t) == ContentsIn(mid, t)[m := ContentsIn(mid, t)[m][..gid] + ContentsIn(mid, t)[m][gid + 1..]]
    ensures ContentsIn(after, t) == ContentsIn(sts, t)[m := h]
  {
    UpdateUndone(ContentsIn(sts, t), ContentsIn(mid, t), ContentsIn(after, t), m, h, x);
  }

  /** A storage holding h + [x] under m keeps |h| + 1 records there, the last one x. */
  lemma OneMore<T>(before: map<GroupMask, seq<T>>, after: Store<T>, m: GroupMask, h: seq<T>, x: T)
    requires Valid(after) && Contents(after) == before[m := h + [x]]
    ensures m in Contents(after) && Contents(after)[m] == h + [x] && Held(after, m) == h + [x]
  {
  }
}
