/**
 * Deferred removal in the entity registry (src/ravine/ecs/EntityRegistry.hpp):
 * lateRemoveEntity queues an entity's position under its archetype's mask
 * and marks its storages; flushEntityOperations sorts and de-duplicates the
 * queued positions and hands them to removeComponents of every marked
 * storage, then empties both containers.
 */
module Deferred {
  import opened FastMath
  import opened Masks
  import opened Groups
  import opened Storage
  import opened Removal
  import opened Registry

  // ---------------------------------------------------------------------------
  // The pending list (GroupIdList)

  /** The masks the list holds an entry for. */
  function PendingKeys(pend: seq<Pending>): set<GroupMask> {
    set q | 0 <= q < |pend| :: pend[q].key
  }

  /**
   * The insertion of lateRemoveEntity: lower_bound finds the first entry not
   * below m; an entry for m gets x appended, otherwise a new entry [x] is
   * inserted there. The list stays in mask order, m's positions grow by x
   * and no other mask's positions change.
   */
  function AppendPending(pend: seq<Pending>, m: GroupMask, x: int): (r: seq<Pending>)
    requires SortedPending(pend)
    ensures SortedPending(r) && PendingKeys(r) == PendingKeys(pend) + {m}
    ensures PosOf(r, m) == PosOf(pend, m) + [x]
    ensures forall k :: k != m ==> PosOf(r, k) == PosOf(pend, k)
    decreases |pend|
  {
    if |pend| == 0 then Single(m, x); [Pending(m, [x])]
    else if Less(pend[0].key, m) then
      var rest := AppendPending(pend[1..], m, x);
      PendingTail(pend);
      AboveHead(pend, m, rest);
      [pend[0]] + rest
    else if !Less(m, pend[0].key) then
      LessIsStrictTotalOrder(m, pend[0].key, m);
      JoinHead(pend, x);
      [Pending(m, pend[0].positions + [x])] + pend[1..]
    else
      AboveNew(pend, m, x);
      [Pending(m, [x])] + pend
  }

  // ---------------------------------------------------------------------------
  // lateRemoveEntity

  /**
   * lateRemoveEntity as written: every storage of the entity is marked, its
   * groupId is queued under GroupMask(compTypes), and the handle becomes
   * InvalidEntity. The entry is read into a copy, and the copy is what gets
   * invalidated: entityRegistry and every storage are left as they were.
   */
  function LateRemoveEntity<T>(w: World<T>, e: int): (r: (World<T>, int))
    requires WorldValid(w) && 0 <= e < |w.entities|
    ensures WorldValid(r.0) && r.1 == InvalidEntity
    ensures r.0 == w.(pending := r.0.pending, toDestroy := r.0.toDestroy)
    ensures r.0.toDestroy == w.toDestroy + (set t | t in w.entities[e].compTypes)
    ensures var m := MaskOf(w.entities[e].compTypes);
      PendingKeys(r.0.pending) == PendingKeys(w.pending) + {m}
      && PosOf(r.0.pending, m) == PosOf(w.pending, m) + [w.entities[e].groupId]
      && forall k :: k != m ==> PosOf(r.0.pending, k) == PosOf(w.pending, k)
  {
    var reg := w.entities[e];
    (w.(pending := AppendPending(w.pending, MaskOf(reg.compTypes), reg.groupId),
        toDestroy := w.toDestroy + (set t | t in reg.compTypes)), InvalidEntity)
  }

  /**
   * The entity stays registered after lateRemoveEntity: removeEntity or
   * another lateRemoveEntity on a second handle to it still accept it, and
   * the id keeps its uniqueId.
   */
  lemma LateRemovedStillRemovable<T>(w: World<T>, e: int)
    requires WorldValid(w) && EntityRemovable(w, e)
    ensures var r := LateRemoveEntity(w, e).0;
      EntityRemovable(r, e) && r.entities[e].uniqueId == w.entities[e].uniqueId
  {
  }

  /** lateRemoveEntity invalidating the registry entry itself, as the "Set as invalid" step intends. */
  function LateRemoveEntityCorrected<T>(w: World<T>, e: int): (r: (World<T>, int))
    requires WorldValid(w) && 0 <= e < |w.entities|
    ensures WorldValid(r.0) && r.1 == InvalidEntity
    ensures r.0 == LateRemoveEntity(w, e).0.(entities := w.entities[e := EntityReg(InvalidEntity, -1, w.entities[e].compTypes)])
    ensures !EntityRemovable(r.0, e)
  {
    var late := LateRemoveEntity(w, e).0;
    (late.(entities := w.entities[e := EntityReg(InvalidEntity, -1, w.entities[e].compTypes)]), InvalidEntity)
  }

  /** The tail of a list in mask order is in mask order, holds the other masks, and lists none of them twice. */
  lemma PendingTail(pend: seq<Pending>)
    requires SortedPending(pend) && |pend| > 0
    ensures SortedPending(pend[1..])
    ensures PendingKeys(pend) == {pend[0].key} + PendingKeys(pend[1..])
    ensures forall k :: k in PendingKeys(pend[1..]) ==> Less(pend[0].key, k)
    ensures forall k :: k != pend[0].key ==> PosOf(pend, k) == PosOf(pend[1..], k)
  {
    var tail := pend[1..];
    assert forall q :: 0 <= q < |tail| ==> tail[q] == pend[q + 1];
    assert PendingKeys(pend) == {pend[0].key} + PendingKeys(tail) by {
      forall k | k in PendingKeys(pend)
        ensures k in {pend[0].key} + PendingKeys(tail)
      {
        var q :| 0 <= q < |pend| && pend[q].key == k;
        if q > 0 {
          assert tail[q - 1].key == k;
        }
      }
    }
  }

  /** Putting the head back in front of an extended tail keeps the order. */
  lemma AboveHead(pend: seq<Pending>, m: GroupMask, rest: seq<Pending>)
    requires SortedPending(pend) && |pend| > 0 && Less(pend[0].key, m)
    requires forall k :: k in PendingKeys(pend[1..]) ==> Less(pend[0].key, k)
    requires SortedPending(rest) && PendingKeys(rest) == PendingKeys(pend[1..]) + {m}
    ensures SortedPending([pend[0]] + rest)
    ensures PendingKeys([pend[0]] + rest) == {pend[0].key} + PendingKeys(rest)
  {
    var r := [pend[0]] + rest;
    forall q | 0 <= q < |rest|
      ensures Less(pend[0].key, rest[q].key)
    {
      assert rest[q].key in PendingKeys(rest);
    }
    assert r[1..] == rest;
    assert forall q :: 1 <= q < |r| ==> r[q] == rest[q - 1];
    assert SortedPending(r);
    PendingTail(r);
  }

  /** A new entry for a mask below the head goes first. */
  lemma AboveNew(pend: seq<Pending>, m: GroupMask, x: int)
    requires SortedPending(pend) && |pend| > 0 && Less(m, pend[0].key)
    ensures var r := [Pending(m, [x])] + pend;
      SortedPending(r) && PendingKeys(r) == PendingKeys(pend) + {m}
      && PosOf(pend, m) == [] && PosOf(r, m) == [x] && forall k :: k != m ==> PosOf(r, k) == PosOf(pend, k)
  {
    var r := [Pending(m, [x])] + pend;
    LessIsStrictTotalOrder(m, m, m);
    forall q | 0 <= q < |pend|
      ensures Less(m, pend[q].key)
    {
      if q > 0 {
        LessIsStrictTotalOrder(m, pend[0].key, pend[q].key);
      }
    }
    PosOfUnlisted(pend, m);
    assert r[1..] == pend;
    assert forall q :: 1 <= q < |r| ==> r[q] == pend[q - 1];
    assert SortedPending(r);
    PendingTail(r);
  }

  /** Appending to the head entry keeps the masks and the other masks' positions. */
  lemma JoinHead(pend: seq<Pending>, x: int)
    requires SortedPending(pend) && |pend| > 0
    ensures var r := [Pending(pend[0].key, pend[0].positions + [x])] + pend[1..];
      SortedPending(r) && PendingKeys(r) == PendingKeys(pend)
      && forall k :: k != pend[0].key ==> PosOf(r, k) == PosOf(pend, k)
  {
    var r := [Pending(pend[0].key, pend[0].positions + [x])] + pend[1..];
    assert r[1..] == pend[1..];
    assert forall q :: 1 <= q < |r| ==> r[q] == pend[q];
    assert SortedPending(r);
    PendingTail(pend);
    PendingTail(r);
  }

  /** The list with one entry. */
  lemma Single(m: GroupMask, x: int)
    ensures var r := [Pending(m, [x])];
      SortedPending(r) && PendingKeys(r) == {m} && PosOf(r, m) == [x] && forall k :: k != m ==> PosOf(r, k) == []
  {
    var r := [Pending(m, [x])];
    assert r[1..] == [];
    assert r[0].key in PendingKeys(r);
  }

  // ---------------------------------------------------------------------------
  // Sorting and de-duplicating the queued positions

  /** x put into an increasing list, kept once. */
  function InsertSorted(s: seq<int>, x: int): (r: seq<int>)
    requires Increasing(s)
    ensures Increasing(r) && forall y :: y in r <==> y in s || y == x
    decreases |s|
  {
    if |s| == 0 then [x]
    else if x < s[0] then
      assert forall j :: 0 < j < |s| ==> s[0] < s[j];
      [x] + s
    else if x == s[0] then s
    else
      var rest := InsertSorted(s[1..], x);
      assert forall y :: y in s[1..] ==> s[0] < y;
      assert forall j :: 0 <= j < |rest| ==> rest[j] in rest;
      [s[0]] + rest
  }

  /** std::sort then std::unique: the positions in increasing order, each once. */
  function SortUnique(s: seq<int>): (r: seq<int>)
    ensures Increasing(r) && forall y :: y in r <==> y in s
    decreases |s|
  {
    if |s| == 0 then [] else InsertSorted(SortUnique(s[..|s| - 1]), s[|s| - 1])
  }

  /** An increasing list is determined by its members, so SortUnique is the only outcome sort and unique can give. */
  lemma {:induction false} IncreasingByMembers(a: seq<int>, b: seq<int>)
    requires Increasing(a) && Increasing(b) && forall y :: y in a <==> y in b
    ensures a == b
    decreases |a|
  {
    if |a| == 0 {
      if |b| > 0 {
        Nonempty(b);
        assert false;
      }
    } else {
      assert a[0] in b && b[0] in a;
      assert a[0] == b[0] by {
        var i :| 0 <= i < |a| && a[i] == b[0];
        var j :| 0 <= j < |b| && b[j] == a[0];
        assert a[0] <= a[i] && b[0] <= b[j];
      }
      forall y
        ensures y in a[1..] <==> y in b[1..]
      {
        if y in a[1..] {
          var i :| 1 <= i < |a| && a[i] == y;
          assert y in a && y in b;
          var j :| 0 <= j < |b| && b[j] == y;
          assert j != 0 && b[1..][j - 1] == y;
        }
        if y in b[1..] {
          var j :| 1 <= j < |b| && b[j] == y;
          assert y in b && y in a;
          var i :| 0 <= i < |a| && a[i] == y;
          assert i != 0 && a[1..][i - 1] == y;
        }
      }
      IncreasingByMembers(a[1..], b[1..]);
      assert a == [a[0]] + a[1..] && b == [b[0]] + b[1..];
    }
  }

  /** The first loop of flushEntityOperations: every queued list sorted and de-duplicated. */
  function Normalised(pend: seq<Pending>): (r: seq<Pending>)
    ensures |r| == |pend| && forall q :: 0 <= q < |pend| ==> r[q].key == pend[q].key
    ensures forall q :: 0 <= q < |pend| ==>
      Increasing(r[q].positions) && forall y :: y in r[q].positions <==> y in pend[q].positions
  {
    seq(|pend|, q requires 0 <= q < |pend| => Pending(pend[q].key, SortUnique(pend[q].positions)))
  }

  /** Normalising keeps the order and the masks. */
  lemma NormalisedKeys(pend: seq<Pending>)
    ensures SortedPending(pend) ==> SortedPending(Normalised(pend))
    ensures PendingKeys(Normalised(pend)) == PendingKeys(pend)
  {
    var r := Normalised(pend);
    forall k | k in PendingKeys(pend)
      ensures k in PendingKeys(r)
    {
      var q :| 0 <= q < |pend| && pend[q].key == k;
      assert r[q].key == k;
    }
  }

  /** Normalising sorts and de-duplicates each mask's positions. */
  lemma {:induction false} NormalisedPosOf(pend: seq<Pending>, m: GroupMask)
    ensures PosOf(Normalised(pend), m) == SortUnique(PosOf(pend, m))
    decreases |pend|
  {
    if |pend| > 0 && pend[0].key != m {
      NormalisedPosOf(pend[1..], m);
      assert Normalised(pend)[1..] == Normalised(pend[1..]);
    }
  }

  // ---------------------------------------------------------------------------
  // flushEntityOperations as written

  /**
   * What flushEntityOperations as written demands: every marked storage
   * exists and its removeComponents accepts the whole normalised list: the
   * list is not empty, each of its masks names a group of that storage, and
   * the positions lie inside the group.
   */
  predicate FlushReady<T>(w: World<T>)
    requires WorldValid(w)
  {
    forall t :: t in w.toDestroy ==> t in w.storages && |w.pending| > 0 && PendingFor(w.storages[t], Normalised(w.pending))
  }

  /**
   * flushEntityOperations as written: the normalised list goes, whole, to
   * removeComponents of every marked storage; the list and the marks are
   * then cleared.
   */
  function FlushAsWritten<T>(w: World<T>): (r: World<T>)
    requires WorldValid(w) && FlushReady(w)
    ensures WorldValid(r) && r == w.(storages := r.storages, pending := [], toDestroy := {})
    ensures r.storages.Keys == w.storages.Keys
    ensures forall t :: t in w.storages && t !in w.toDestroy ==> r.storages[t] == w.storages[t]
    ensures forall t :: t in w.storages ==> r.storages[t] == FlushedAsWrittenAt(w, t)
  {
    w.(storages := map t | t in w.storages :: FlushedAsWrittenAt(w, t), pending := [], toDestroy := {})
  }

  /** The storage of identity t after the flush as written: flushed when marked, kept otherwise. */
  function FlushedAsWrittenAt<T>(w: World<T>, t: int): (r: Store<Record<T>>)
    requires WorldValid(w) && FlushReady(w) && t in w.storages
    ensures StorageOk(t, r) && (t !in w.toDestroy ==> r == w.storages[t])
  {
    if t in w.toDestroy then FlushedAsWritten(w.storages[t], t, Normalised(w.pending)) else w.storages[t]
  }

  /** removeComponents(entIdToDestroy) on one marked storage. */
  function FlushedAsWritten<T>(s: Store<T>, t: int, pend: seq<Pending>): (r: Store<T>)
    requires StorageOk(t, s) && PendingFor(s, pend) && |pend| > 0
    ensures StorageOk(t, r)
  {
    RemoveComponents(s, pend)
  }

  /**
   * Every marked storage holds, under each of its masks, its records
   * without the positions queued for that mask; the other storages are
   * the same.
   */
  ghost predicate Drained<T>(before: map<int, Store<T>>, after: map<int, Store<T>>, marked: set<int>, pend: seq<Pending>)
    requires StoragesOk(before) && StoragesOk(after)
  {
    after.Keys == before.Keys
    && (forall t :: t in marked ==>
          t in before && ContentsIn(after, t).Keys == ContentsIn(before, t).Keys
          && forall m :: m in ContentsIn(before, t) ==>
               ContentsIn(after, t)[m] == Delete(ContentsIn(before, t)[m], PosOf(pend, m), 0))
    && forall t :: t in before && t !in marked ==> after[t] == before[t]
  }

  /**
   * What the flush as written leaves, when it can run: the marked storages
   * drained of the queued positions; the sort and de-duplication change
   * nothing about which records go.
   */
  lemma FlushAsWrittenContents<T>(w: World<T>)
    requires WorldValid(w) && FlushReady(w)
    ensures Drained(w.storages, FlushAsWritten(w).storages, w.toDestroy, w.pending)
  {
    var r := FlushAsWritten(w);
    forall t | t in w.toDestroy
      ensures t in w.storages && ContentsIn(r.storages, t).Keys == ContentsIn(w.storages, t).Keys
      ensures forall m :: m in ContentsIn(w.storages, t) ==>
        ContentsIn(r.storages, t)[m] == Delete(ContentsIn(w.storages, t)[m], PosOf(w.pending, m), 0)
    {
      assert r.storages[t] == FlushedAsWritten(w.storages[t], t, Normalised(w.pending));
      FlushedAsWrittenContents(w.storages[t], t, w.pending);
    }
  }

  /** One marked storage under the flush as written. */
  lemma {:induction false} FlushedAsWrittenContents<T>(s: Store<T>, t: int, pend: seq<Pending>)
    requires StorageOk(t, s) && PendingFor(s, Normalised(pend)) && |pend| > 0
    ensures var r := FlushedAsWritten(s, t, Normalised(pend));
      Contents(r).Keys == Contents(s).Keys
      && forall m :: m in Contents(s) ==> Contents(r)[m] == Delete(Contents(s)[m], PosOf(pend, m), 0)
  {
    var n := Normalised(pend);
    var c := Contents(s);
    RemoveComponentsContents(s, n);
    forall m | m in c
      ensures Delete(c[m], PosOf(n, m), 0) == Delete(c[m], PosOf(pend, m), 0)
    {
      NormalisedPosOf(pend, m);
      DeleteSame(c[m], PosOf(n, m), PosOf(pend, m), 0);
    }
  }

  /** A marked storage without a group for one of the queued masks makes the flush as written fail its assertion. */
  lemma FlushTrips<T>(w: World<T>, t: int, q: int)
    requires WorldValid(w) && t in w.toDestroy && t in w.storages && 0 <= q < |w.pending|
    requires w.pending[q].key !in KeySet(w.storages[t].groups)
    ensures !FlushReady(w)
  {
    assert Normalised(w.pending)[q].key == w.pending[q].key;
  }

  /**
   * Two late removals from different archetypes, one of whose storages
   * keeps no group for the other archetype (an entity of {EntityProxy, X}
   * and one of {EntityProxy, Y}, with X's storage holding only the
   * {EntityProxy, X} group): the flush as written cannot run.
   */
  lemma TwoArchetypesTrip<T>(w: World<T>, e1: int, e2: int, x: int)
    requires WorldValid(w) && 0 <= e1 < |w.entities| && 0 <= e2 < |w.entities|
    requires x in w.entities[e1].compTypes && x in w.storages
    requires MaskOf(w.entities[e2].compTypes) !in KeySet(w.storages[x].groups)
    ensures !FlushReady(LateRemoveEntity(LateRemoveEntity(w, e1).0, e2).0)
  {
    var w1 := LateRemoveEntity(w, e1).0;
    var w2 := LateRemoveEntity(w1, e2).0;
    var m := MaskOf(w.entities[e2].compTypes);
    assert m in PendingKeys(w2.pending);
    var q :| 0 <= q < |w2.pending| && w2.pending[q].key == m;
    FlushTrips(w2, x, q);
  }

  // ---------------------------------------------------------------------------
  // flushEntityOperations, each storage given only the masks it holds

  /** The entries of the list whose masks lie in ks, in the list's order. */
  function Restrict(pend: seq<Pending>, ks: set<GroupMask>): seq<Pending>
    decreases |pend|
  {
    if |pend| == 0 then []
    else (if pend[0].key in ks then [pend[0]] else []) + Restrict(pend[1..], ks)
  }

  /**
   * Restricting keeps the mask order, keeps exactly the masks that lie in
   * ks, takes its entries from the list, and leaves each kept mask its
   * positions and the others none.
   */
  lemma {:induction false} RestrictFacts(pend: seq<Pending>, ks: set<GroupMask>)
    ensures var r := Restrict(pend, ks);
      (SortedPending(pend) ==> SortedPending(r))
      && PendingKeys(r) == PendingKeys(pend) * ks
      && (forall e :: e in r ==> e in pend && e.key in ks)
      && forall m :: PosOf(r, m) == if m in ks then PosOf(pend, m) else []
    decreases |pend|
  {
    if |pend| > 0 {
      RestrictFacts(pend[1..], ks);
      var rest := Restrict(pend[1..], ks);
      if SortedPending(pend) {
        PendingTail(pend);
        StepSorted(pend, ks, rest);
      }
      StepKeys(pend, ks, rest);
      StepIn(pend, ks, rest);
      StepPos(pend, ks, rest);
      if pend[0].key in ks {
        assert Restrict(pend, ks) == [pend[0]] + rest;
      } else {
        assert Restrict(pend, ks) == rest;
      }
    }
  }

  /** The queued positions for every mask the storage has a group for lie inside that group. */
  predicate QueuedFits<T>(s: Store<T>, pend: seq<Pending>) {
    forall q :: 0 <= q < |pend| && pend[q].key in KeySet(s.groups) ==>
      Within(pend[q].positions, 0, s.groups[Find(s.groups, pend[q].key)].g.size)
  }

  /** What the corrected flush demands: every marked storage exists and its queued positions fit its groups. */
  predicate FlushReadyCorrected<T>(w: World<T>)
    requires WorldValid(w)
  {
    forall t :: t in w.toDestroy ==> t in w.storages && QueuedFits(w.storages[t], w.pending)
  }

  /**
   * flushEntityOperations with each marked storage given the normalised
   * list restricted to the masks it has a group for, and skipped when none
   * is left; the list and the marks are then cleared.
   */
  function Flush<T>(w: World<T>): (r: World<T>)
    requires WorldValid(w) && FlushReadyCorrected(w)
    ensures WorldValid(r) && r == w.(storages := r.storages, pending := [], toDestroy := {})
    ensures r.storages.Keys == w.storages.Keys
    ensures forall t :: t in w.storages && t !in w.toDestroy ==> r.storages[t] == w.storages[t]
    ensures forall t :: t in w.storages ==> r.storages[t] == FlushedAt(w, t)
  {
    w.(storages := map t | t in w.storages :: FlushedAt(w, t), pending := [], toDestroy := {})
  }

  /** The storage of identity t after the corrected flush: flushed when marked, kept otherwise. */
  function FlushedAt<T>(w: World<T>, t: int): (r: Store<Record<T>>)
    requires WorldValid(w) && FlushReadyCorrected(w) && t in w.storages
    ensures StorageOk(t, r) && (t !in w.toDestroy ==> r == w.storages[t])
  {
    if t in w.toDestroy then Flushed(w.storages[t], t, w.pending) else w.storages[t]
  }

  /** The corrected removeComponents call on one marked storage. */
  function Flushed<T>(s: Store<T>, t: int, pend: seq<Pending>): (r: Store<T>)
    requires StorageOk(t, s) && SortedPending(pend) && QueuedFits(s, pend)
    ensures StorageOk(t, r)
  {
    var p := Restrict(Normalised(pend), KeySet(s.groups));
    RestrictedFor(s, pend);
    if |p| == 0 then s else RemoveComponents(s, p)
  }

  /** The restricted, normalised list is one removeComponents accepts. */
  lemma RestrictedFor<T>(s: Store<T>, pend: seq<Pending>)
    requires SortedPending(pend) && QueuedFits(s, pend)
    ensures PendingFor(s, Restrict(Normalised(pend), KeySet(s.groups)))
  {
    var n := Normalised(pend);
    var p := Restrict(n, KeySet(s.groups));
    NormalisedKeys(pend);
    RestrictFacts(n, KeySet(s.groups));
    forall i | 0 <= i < |p|
      ensures p[i].key in KeySet(s.groups) && Increasing(p[i].positions)
      ensures Within(p[i].positions, 0, s.groups[Find(s.groups, p[i].key)].g.size)
    {
      assert p[i] in p;
      var q :| 0 <= q < |n| && n[q] == p[i];
      NormalisedFits(s, pend, q);
    }
  }

  /** A normalised entry for a mask of the storage is ascending and inside its group. */
  lemma NormalisedFits<T>(s: Store<T>, pend: seq<Pending>, q: int)
    requires QueuedFits(s, pend) && 0 <= q < |pend| && pend[q].key in KeySet(s.groups)
    ensures var e := Normalised(pend)[q];
      Increasing(e.positions) && Within(e.positions, 0, s.groups[Find(s.groups, e.key)].g.size)
  {
    var e := Normalised(pend)[q];
    assert forall j :: 0 <= j < |e.positions| ==> e.positions[j] in e.positions;
  }

  /**
   * What the corrected flush leaves in a marked storage: under every mask,
   * the records without the positions queued for that mask.
   */
  lemma FlushedContents<T>(s: Store<T>, t: int, pend: seq<Pending>)
    requires StorageOk(t, s) && SortedPending(pend) && QueuedFits(s, pend)
    ensures Contents(Flushed(s, t, pend)).Keys == Contents(s).Keys
    ensures forall m :: m in Contents(s) ==> Contents(Flushed(s, t, pend))[m] == Delete(Contents(s)[m], PosOf(pend, m), 0)
  {
    var n := Normalised(pend);
    var p := Restrict(n, KeySet(s.groups));
    RestrictedFor(s, pend);
    RestrictFacts(n, KeySet(s.groups));
    if |p| > 0 {
      RemoveComponentsContents(s, p);
    }
    forall m | m in Contents(s)
      ensures Contents(Flushed(s, t, pend))[m] == Delete(Contents(s)[m], PosOf(pend, m), 0)
    {
      NormalisedPosOf(pend, m);
      DeleteSame(Contents(s)[m], PosOf(p, m), PosOf(pend, m), 0);
      if |p| == 0 {
        DeleteKeep(Contents(s)[m], PosOf(p, m), 0);
      }
    }
  }

  /** What the corrected flush leaves: the marked storages drained of the queued positions. */
  lemma FlushContents<T>(w: World<T>)
    requires WorldValid(w) && FlushReadyCorrected(w)
    ensures Drained(w.storages, Flush(w).storages, w.toDestroy, w.pending)
  {
    var r := Flush(w);
    forall t | t in w.toDestroy
      ensures t in w.storages && ContentsIn(r.storages, t).Keys == ContentsIn(w.storages, t).Keys
      ensures forall m :: m in ContentsIn(w.storages, t) ==>
        ContentsIn(r.storages, t)[m] == Delete(ContentsIn(w.storages, t)[m], PosOf(w.pending, m), 0)
    {
      assert r.storages[t] == Flushed(w.storages[t], t, w.pending);
      FlushedContents(w.storages[t], t, w.pending);
    }
  }

  /** A second flush with nothing queued in between changes nothing. */
  lemma FlushTwice<T>(w: World<T>)
    requires WorldValid(w) && FlushReadyCorrected(w)
    ensures FlushReadyCorrected(Flush(w)) && Flush(Flush(w)) == Flush(w)
  {
    var r := Flush(w);
    assert Flush(r).storages == r.storages;
  }

  /**
   * Whenever the flush as written can run, the corrected flush can too and
   * leaves the same world: restricting changes nothing when every storage
   * holds every queued mask.
   */
  lemma FlushAgrees<T>(w: World<T>)
    requires WorldValid(w) && FlushReady(w)
    ensures FlushReadyCorrected(w) && Flush(w) == FlushAsWritten(w)
  {
    forall t | t in w.toDestroy
      ensures QueuedFits(w.storages[t], w.pending)
    {
      AgreesAt(w.storages[t], t, w.pending);
    }
    SameFlush(w, Flush(w), FlushAsWritten(w));
  }

  /** Two worlds that hold, storage by storage, what the two flushes leave are the same world. */
  lemma SameFlush<T>(w: World<T>, a: World<T>, b: World<T>)
    requires WorldValid(w) && FlushReady(w) && FlushReadyCorrected(w)
    requires a == w.(storages := a.storages, pending := [], toDestroy := {})
    requires b == w.(storages := b.storages, pending := [], toDestroy := {})
    requires a.storages.Keys == w.storages.Keys && b.storages.Keys == w.storages.Keys
    requires forall t :: t in w.storages ==> a.storages[t] == FlushedAt(w, t) && b.storages[t] == FlushedAsWrittenAt(w, t)
    ensures a == b
  {
    forall t | t in w.storages
      ensures a.storages[t] == b.storages[t]
    {
      if t in w.toDestroy {
        AgreesAt(w.storages[t], t, w.pending);
      }
    }
    assert a.storages == b.storages;
  }

  /** On one storage that accepts the whole normalised list, both flushes make the same call. */
  lemma AgreesAt<T>(s: Store<T>, t: int, pend: seq<Pending>)
    requires StorageOk(t, s) && PendingFor(s, Normalised(pend)) && |pend| > 0 && SortedPending(pend)
    ensures QueuedFits(s, pend) && Flushed(s, t, pend) == FlushedAsWritten(s, t, Normalised(pend))
  {
    var n := Normalised(pend);
    forall q | 0 <= q < |pend| && pend[q].key in KeySet(s.groups)
      ensures Within(pend[q].positions, 0, s.groups[Find(s.groups, pend[q].key)].g.size)
    {
      assert forall j :: 0 <= j < |pend[q].positions| ==> pend[q].positions[j] in n[q].positions;
    }
    RestrictAll(n, KeySet(s.groups));
  }

  /** Restricting to a set holding every mask of the list keeps the whole list. */
  lemma {:induction false} RestrictAll(pend: seq<Pending>, ks: set<GroupMask>)
    requires forall q :: 0 <= q < |pend| ==> pend[q].key in ks
    ensures Restrict(pend, ks) == pend
    decreases |pend|
  {
    if |pend| > 0 {
      var tail := pend[1..];
      assert forall q :: 0 <= q < |tail| ==> tail[q].key in ks by {
        assert forall q :: 0 <= q < |tail| ==> tail[q] == pend[q + 1];
      }
      RestrictAll(tail, ks);
      assert pend == [pend[0]] + tail;
    }
  }

  /**
   * With nothing queued, the corrected lateRemoveEntity followed by the
   * corrected flush removes exactly what removeEntity removes: every
   * storage holds the same records afterwards, and the entry is
   * invalidated the same way.
   */
  lemma LateThenFlush<T>(w: World<T>, e: int)
    requires WorldValid(w) && EntityRemovable(w, e) && w.pending == [] && w.toDestroy == {}
    ensures var l := LateRemoveEntityCorrected(w, e).0;
      FlushReadyCorrected(l)
      && var f := Flush(l); var r := RemoveEntity(w, e).0;
         f.entities == r.entities && f.storages.Keys == r.storages.Keys
         && forall t :: ContentsIn(f.storages, t) == ContentsIn(r.storages, t)
  {
    var reg := w.entities[e];
    var l := LateRemoveEntityCorrected(w, e).0;
    LateQueued(w, e, l);
    FlushOfLate(w, e, l);
  }

  /** What the corrected lateRemoveEntity queues when nothing was queued before, and that the corrected flush accepts it. */
  lemma LateQueued<T>(w: World<T>, e: int, l: World<T>)
    requires WorldValid(w) && EntityRemovable(w, e) && w.pending == [] && w.toDestroy == {}
    requires l == LateRemoveEntityCorrected(w, e).0
    ensures WorldValid(l) && FlushReadyCorrected(l) && l.storages == w.storages
    ensures l.entities == w.entities[e := EntityReg(InvalidEntity, -1, w.entities[e].compTypes)]
    ensures l.toDestroy == set t | t in w.entities[e].compTypes
    ensures l.pending == [Pending(MaskOf(w.entities[e].compTypes), [w.entities[e].groupId])]
  {
    var reg := w.entities[e];
    var m := MaskOf(reg.compTypes);
    Single(m, reg.groupId);
    assert l.pending == [Pending(m, [reg.groupId])];
    forall t | t in l.toDestroy
      ensures t in l.storages && QueuedFits(l.storages[t], l.pending)
    {
      assert t in reg.compTypes;
    }
  }

  /** The corrected flush of what the corrected lateRemoveEntity queued leaves what removeEntity leaves. */
  lemma FlushOfLate<T>(w: World<T>, e: int, l: World<T>)
    requires WorldValid(w) && EntityRemovable(w, e) && WorldValid(l) && FlushReadyCorrected(l) && l.storages == w.storages
    requires l.entities == w.entities[e := EntityReg(InvalidEntity, -1, w.entities[e].compTypes)]
    requires l.toDestroy == set t | t in w.entities[e].compTypes
    requires l.pending == [Pending(MaskOf(w.entities[e].compTypes), [w.entities[e].groupId])]
    ensures var f := Flush(l); var r := RemoveEntity(w, e).0;
      f.entities == r.entities && f.storages.Keys == r.storages.Keys
      && forall t :: ContentsIn(f.storages, t) == ContentsIn(r.storages, t)
  {
    var reg := w.entities[e];
    RemoveEntityContents(w, e);
    FlushContents(l);
    FlushMatchesRemove(w.storages, Flush(l).storages, RemoveEntity(w, e).0.storages, reg.compTypes, MaskOf(reg.compTypes), reg.groupId, l.pending);
  }

  /** Draining one queued position under m from the storages of types is removing it there. */
  lemma FlushMatchesRemove<T>(before: map<int, Store<T>>, f: map<int, Store<T>>, r: map<int, Store<T>>,
                              types: seq<int>, m: GroupMask, pos: int, pend: seq<Pending>)
    requires StoragesOk(before) && StoragesOk(f) && StoragesOk(r) && pend == [Pending(m, [pos])]
    requires Drained(before, f, (set t | t in types), pend) && RemovedAt(before, r, types, m, pos)
    requires r.Keys == before.Keys && forall t :: t in before && t !in types ==> r[t] == before[t]
    ensures f.Keys == r.Keys && forall t :: ContentsIn(f, t) == ContentsIn(r, t)
  {
    forall t | t in types
      ensures ContentsIn(f, t) == ContentsIn(r, t)
    {
      DeletedOnce(ContentsIn(before, t), ContentsIn(f, t), m, pos, pend);
    }
  }

  /** Deleting the positions of a one-entry list removes one record under its mask. */
  lemma DeletedOnce<T>(c: map<GroupMask, seq<T>>, d: map<GroupMask, seq<T>>, m: GroupMask, pos: int, pend: seq<Pending>)
    requires pend == [Pending(m, [pos])] && m in c && 0 <= pos < |c[m]|
    requires d.Keys == c.Keys && forall k :: k in c ==> d[k] == Delete(c[k], PosOf(pend, k), 0)
    ensures d == c[m := c[m][..pos] + c[m][pos + 1..]]
  {
    Single(m, pos);
    forall k | k in c
      ensures d[k] == c[m := c[m][..pos] + c[m][pos + 1..]][k]
    {
      if k == m {
        DeleteOne(c[k], pos);
      } else {
        DeleteKeep(c[k], [], 0);
      }
    }
  }

  /** One step of Restrict keeps the mask order. */
  lemma StepSorted(pend: seq<Pending>, ks: set<GroupMask>, rest: seq<Pending>)
    requires |pend| > 0 && SortedPending(pend) && SortedPending(rest)
    requires PendingKeys(rest) == PendingKeys(pend[1..]) * ks
    ensures SortedPending(if pend[0].key in ks then [pend[0]] + rest else rest)
  {
    if pend[0].key in ks {
      PendingTail(pend);
      ConsSorted(pend[0], rest);
    }
  }

  /** One step of Restrict keeps exactly the masks in ks. */
  lemma StepKeys(pend: seq<Pending>, ks: set<GroupMask>, rest: seq<Pending>)
    requires |pend| > 0 && PendingKeys(rest) == PendingKeys(pend[1..]) * ks
    ensures PendingKeys(if pend[0].key in ks then [pend[0]] + rest else rest) == PendingKeys(pend) * ks
  {
    assert pend == [pend[0]] + pend[1..];
    ConsKeys(pend[0], pend[1..]);
    ConsKeys(pend[0], rest);
  }

  /** One step of Restrict takes its entries from the list. */
  lemma StepIn(pend: seq<Pending>, ks: set<GroupMask>, rest: seq<Pending>)
    requires |pend| > 0 && forall e :: e in rest ==> e in pend[1..] && e.key in ks
    ensures forall e :: e in (if pend[0].key in ks then [pend[0]] + rest else rest) ==> e in pend && e.key in ks
  {
    assert pend == [pend[0]] + pend[1..];
  }

  /** One step of Restrict leaves the kept masks their positions and the others none. */
  lemma StepPos(pend: seq<Pending>, ks: set<GroupMask>, rest: seq<Pending>)
    requires |pend| > 0 && forall m :: PosOf(rest, m) == if m in ks then PosOf(pend[1..], m) else []
    ensures forall m :: PosOf(if pend[0].key in ks then [pend[0]] + rest else rest, m) == if m in ks then PosOf(pend, m) else []
  {
    if pend[0].key in ks {
      assert ([pend[0]] + rest)[1..] == rest;
    }
  }

  /** The masks of a list with one more entry in front. */
  lemma ConsKeys(x: Pending, rest: seq<Pending>)
    ensures PendingKeys([x] + rest) == {x.key} + PendingKeys(rest)
  {
    var r := [x] + rest;
    assert forall q :: 0 <= q < |rest| ==> r[q + 1] == rest[q];
    forall k | k in PendingKeys(r)
      ensures k in {x.key} + PendingKeys(rest)
    {
      var q :| 0 <= q < |r| && r[q].key == k;
      if q > 0 {
        assert rest[q - 1].key == k;
      }
    }
    assert r[0].key in PendingKeys(r);
  }

  /** An entry below every mask of a list in mask order can go in front of it. */
  lemma ConsSorted(x: Pending, rest: seq<Pending>)
    requires SortedPending(rest) && forall k :: k in PendingKeys(rest) ==> Less(x.key, k)
    ensures SortedPending([x] + rest)
  {
    var r := [x] + rest;
    forall q | 0 <= q < |rest|
      ensures Less(x.key, rest[q].key)
    {
      assert rest[q].key in PendingKeys(rest);
    }
    assert forall q :: 1 <= q < |r| ==> r[q] == rest[q - 1];
  }
}
