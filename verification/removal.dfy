/**
 * Removal of records from a ComponentStorage<T>
 * (src/ravine/ecs/ComponentStorage.hpp): removeComponent for one record and
 * removeComponents for a batch given per group mask.
 *
 * Removing records from a group keeps its base and shrinks it, which leaves
 * a gap after it; every later group is then rolled counter-clockwise to close
 * the gaps left by all groups before it. The batch version walks the groups
 * once, from the first listed mask to the end, accumulating the gap.
 */
module Removal {
  import opened FastMath
  import opened Masks
  import opened Groups
  import opened Storage

  /** One entry of the removal list (GroupIdList): a group mask and the logical positions to remove from it. */
  datatype Pending = Pending(key: GroupMask, positions: seq<int>)

  /** The positions listed for mask m; none when m is not listed. */
  function PosOf(pend: seq<Pending>, m: GroupMask): seq<int>
    decreases |pend|
  {
    if |pend| == 0 then [] else if pend[0].key == m then pend[0].positions else PosOf(pend[1..], m)
  }

  /** The list is ordered by GroupMaskCmp, as a std::map keyed by GroupMask is. */
  predicate SortedPending(pend: seq<Pending>) {
    forall i, j :: 0 <= i < j < |pend| ==> Less(pend[i].key, pend[j].key)
  }

  /**
   * What removeComponents relies on: the list is in mask order, every mask
   * names a group of the storage, and the positions for it are ascending
   * and inside that group.
   */
  predicate PendingFor<T>(s: Store<T>, pend: seq<Pending>) {
    SortedPending(pend)
    && forall q :: 0 <= q < |pend| ==>
         pend[q].key in KeySet(s.groups) && Increasing(pend[q].positions)
         && Within(pend[q].positions, 0, s.groups[Find(s.groups, pend[q].key)].g.size)
  }

  lemma {:induction false} PosOfListed(pend: seq<Pending>, q: int)
    requires SortedPending(pend) && 0 <= q < |pend|
    ensures PosOf(pend, pend[q].key) == pend[q].positions
    decreases |pend|
  {
    if q > 0 {
      LessIsStrictTotalOrder(pend[0].key, pend[q].key, pend[q].key);
      assert pend[1..][q - 1] == pend[q];
      PosOfListed(pend[1..], q - 1);
    }
  }

  lemma {:induction false} PosOfUnlisted(pend: seq<Pending>, m: GroupMask)
    requires forall q :: 0 <= q < |pend| ==> pend[q].key != m
    ensures PosOf(pend, m) == []
    decreases |pend|
  {
    if |pend| > 0 {
      assert forall q :: 0 <= q < |pend| - 1 ==> pend[1..][q] == pend[q + 1];
      PosOfUnlisted(pend[1..], m);
    }
  }

  /** Listed masks sit at increasing group indices. */
  lemma PendingIndices<T>(s: Store<T>, pend: seq<Pending>, a: int, b: int)
    requires Valid(s) && PendingFor(s, pend) && 0 <= a < b < |pend|
    ensures Find(s.groups, pend[a].key) < Find(s.groups, pend[b].key)
  {
    var i, j := Find(s.groups, pend[a].key), Find(s.groups, pend[b].key);
    LessIsStrictTotalOrder(pend[a].key, pend[b].key, pend[a].key);
  }

  // ---------------------------------------------------------------------------
  // The sweep

  /** From group j on, the positions listed for a group are ascending and inside it. */
  predicate Removable(gs: seq<Entry>, j: int, pend: seq<Pending>, pi: int) {
    forall q, t :: 0 <= q < |pend| && pi <= q && 0 <= t < |gs| && j <= t && gs[t].key == pend[q].key ==>
      Increasing(pend[q].positions) && Within(pend[q].positions, 0, gs[t].g.size)
  }

  /**
   * The walk of removeComponents from group j, with pend[pi] the next
   * listed mask and acc the gap accumulated so far; one SweepStep per group.
   */
  function Sweep<T>(d: seq<T>, gs: seq<Entry>, j: int, pend: seq<Pending>, pi: int, acc: int, asWritten: bool)
    : (r: (seq<T>, seq<Entry>))
    requires 0 <= j <= |gs| && 0 <= pi <= |pend| && 0 <= acc
    requires forall t :: j <= t < |gs| ==> Fits(d, gs[t].g)
    requires Removable(gs, j, pend, pi)
    ensures SameShape(d, gs, r.0, r.1, j)
    decreases |gs| - j
  {
    if j == |gs| then (d, gs)
    else
      var n := SweepStep(d, gs, j, pend, pi, acc, asWritten);
      SweepNext(d, gs, j, pend, pi, acc, asWritten);
      StepShape(d, gs, j, pend, pi, acc, asWritten);
      Sweep(n.0, n.1, j + 1, pend, n.2, n.3, asWritten)
  }

  /**
   * One group of the walk: the group of the next listed mask has its records
   * removed and is then rolled back by acc, and the gap grows by what the
   * removal reports: the number of positions removed when asWritten is
   * false, remComponent's return value (the removals right of the tip) when
   * it is true. Any other group is rolled back by acc. The result is the
   * buffer, the groups, the next listed entry and the new gap.
   */
  function SweepStep<T>(d: seq<T>, gs: seq<Entry>, j: int, pend: seq<Pending>, pi: int, acc: int, asWritten: bool)
    : (seq<T>, seq<Entry>, int, int)
    requires 0 <= j < |gs| && 0 <= pi <= |pend| && 0 <= acc
    requires Fits(d, gs[j].g) && Removable(gs, j, pend, pi)
  {
    if pi < |pend| && gs[j].key == pend[pi].key then
      var rem := RemComponent(d, gs[j].g, pend[pi].positions);
      var rolled := RollCounterClockwise(rem.0.buf, rem.0.g, acc);
      var gap := if asWritten then rem.1 else |pend[pi].positions|;
      (rolled.buf, gs[j := Entry(gs[j].key, rolled.g)], pi + 1, acc + gap)
    else
      var rolled := RollCounterClockwise(d, gs[j].g, acc);
      (rolled.buf, gs[j := Entry(gs[j].key, rolled.g)], pi, acc)
  }

  /** What the walk needs of the groups after j still holds after its step at j. */
  lemma SweepNext<T>(d: seq<T>, gs: seq<Entry>, j: int, pend: seq<Pending>, pi: int, acc: int, asWritten: bool)
    requires 0 <= j < |gs| && 0 <= pi <= |pend| && 0 <= acc
    requires forall t :: j <= t < |gs| ==> Fits(d, gs[t].g)
    requires Removable(gs, j, pend, pi)
    ensures var n := SweepStep(d, gs, j, pend, pi, acc, asWritten);
      0 <= n.2 <= |pend| && 0 <= n.3 && |n.1| == |gs|
      && (forall t :: j + 1 <= t < |gs| ==> Fits(n.0, n.1[t].g))
      && Removable(n.1, j + 1, pend, n.2)
  {
    var n := SweepStep(d, gs, j, pend, pi, acc, asWritten);
    assert |n.0| == |d| && pi <= n.2;
    assert forall t :: j < t < |gs| ==> n.1[t] == gs[t];
  }

  /** d2 and gs2 have the length and masks of d and gs, and agree with gs before j. */
  ghost predicate SameShape<T>(d: seq<T>, gs: seq<Entry>, d2: seq<T>, gs2: seq<Entry>, j: int) {
    |d2| == |d| && |gs2| == |gs|
    && (forall t :: 0 <= t < |gs| ==> gs2[t].key == gs[t].key)
    && (forall t :: 0 <= t < j && t < |gs| ==> gs2[t] == gs[t])
  }

  /** One step of the walk keeps the buffer's length and the masks, and changes group j only. */
  lemma StepShape<T>(d: seq<T>, gs: seq<Entry>, j: int, pend: seq<Pending>, pi: int, acc: int, asWritten: bool)
    requires 0 <= j < |gs| && 0 <= pi <= |pend| && 0 <= acc
    requires Fits(d, gs[j].g) && Removable(gs, j, pend, pi)
    ensures var n := SweepStep(d, gs, j, pend, pi, acc, asWritten);
      |n.0| == |d| && |n.1| == |gs| && n.1[j].key == gs[j].key
      && forall t :: 0 <= t < |gs| && t != j ==> n.1[t] == gs[t]
  {
  }

  /**
   * The state of the sweep before group j, relative to the groups gs0 over
   * the buffer data0 it started from.
   */
  ghost predicate SweepInv<T>(data0: seq<T>, gs0: seq<Entry>, pend: seq<Pending>, d: seq<T>, gs: seq<Entry>, j: int, pi: int, acc: int) {
    Untouched(data0, gs0, d, gs, j) && Finished(data0, gs0, pend, d, gs, j) && Pointer(gs0, pend, j, pi)
    && 0 <= acc && (j < |gs0| ==> gs0[j].g.base == DoneEnd(gs, j) + acc)
  }

  /** Every group keeps its mask, and the groups from j on are untouched and read as before. */
  ghost predicate Untouched<T>(data0: seq<T>, gs0: seq<Entry>, d: seq<T>, gs: seq<Entry>, j: int) {
    |d| == |data0| && |gs| == |gs0| && 0 <= j <= |gs0|
    && (forall t :: 0 <= t < |gs0| ==> gs[t].key == gs0[t].key)
    && (forall t :: j <= t < |gs0| ==> gs[t] == gs0[t] && Fits(data0, gs0[t].g) && View(d, gs0[t].g) == View(data0, gs0[t].g))
  }

  /**
   * The groups before j read as before with their listed positions deleted,
   * end no later than before, and tile the buffer from 0.
   */
  ghost predicate Finished<T>(data0: seq<T>, gs0: seq<Entry>, pend: seq<Pending>, d: seq<T>, gs: seq<Entry>, j: int) {
    |d| == |data0| && |gs| == |gs0| && 0 <= j <= |gs0|
    && (forall t :: 0 <= t < j ==>
          Fits(data0, gs0[t].g) && Fits(d, gs[t].g) && EndOf(gs[t].g) <= EndOf(gs0[t].g) && EndOf(gs[t].g) <= DoneEnd(gs, j)
          && View(d, gs[t].g) == Delete(View(data0, gs0[t].g), PosOf(pend, gs0[t].key), 0))
    && (j > 0 ==> gs[0].g.base == 0)
    && (forall t :: 0 < t < j ==> gs[t].g.base == EndOf(gs[t - 1].g))
  }

  /** pend[pi] is the first listed mask whose group is at or after j. */
  predicate Pointer(gs0: seq<Entry>, pend: seq<Pending>, j: int, pi: int) {
    0 <= pi <= |pend|
    && forall q :: 0 <= q < |pend| ==> pend[q].key in KeySet(gs0) && (q < pi <==> Find(gs0, pend[q].key) < j)
  }

  /** Where the finished groups end: the start of the gap before group j. */
  function DoneEnd(gs: seq<Entry>, j: int): int
    requires 0 <= j <= |gs|
  {
    if j == 0 then 0 else EndOf(gs[j - 1].g)
  }

  /**
   * The state the walk starts in, at the first listed mask's group with no
   * gap: every group before it is untouched and lists no positions.
   */
  lemma SweepStart<T>(s: Store<T>, pend: seq<Pending>)
    requires Valid(s) && PendingFor(s, pend) && |pend| > 0
    ensures SweepInv(s.data, s.groups, pend, s.data, s.groups, Find(s.groups, pend[0].key), 0, 0)
  {
    var gs := s.groups;
    var first := Find(gs, pend[0].key);
    forall q | 0 < q < |pend|
      ensures first < Find(gs, pend[q].key)
    {
      PendingIndices(s, pend, 0, q);
    }
    forall t | 0 <= t < first
      ensures View(s.data, gs[t].g) == Delete(View(s.data, gs[t].g), PosOf(pend, gs[t].key), 0)
      ensures EndOf(gs[t].g) <= DoneEnd(gs, first)
    {
      forall q | 0 <= q < |pend|
        ensures pend[q].key != gs[t].key
      {
        FindUnique(gs, t);
      }
      PosOfUnlisted(pend, gs[t].key);
      DeleteKeep(View(s.data, gs[t].g), [], 0);
      if t < first - 1 {
        LayoutOrder(s.data, gs, 0, t, first - 1);
      }
    }
  }

  /** The positions listed for the groups from j on fit them. */
  lemma RemovableFrom<T>(s: Store<T>, pend: seq<Pending>, d: seq<T>, gs: seq<Entry>, j: int, pi: int)
    requires Valid(s) && PendingFor(s, pend) && Untouched(s.data, s.groups, d, gs, j) && 0 <= pi <= |pend|
    ensures Removable(gs, j, pend, pi)
    ensures forall t :: j <= t < |gs| ==> Fits(d, gs[t].g)
  {
    forall q, t | 0 <= q < |pend| && pi <= q && 0 <= t < |gs| && j <= t && gs[t].key == pend[q].key
      ensures Increasing(pend[q].positions) && Within(pend[q].positions, 0, gs[t].g.size)
    {
      FindUnique(s.groups, t);
    }
  }

  // ---------------------------------------------------------------------------
  // One step of the sweep

  /** Writing only below the end of group j leaves the later groups as they were. */
  lemma StepUntouched<T>(data0: seq<T>, gs0: seq<Entry>, d: seq<T>, gs: seq<Entry>, j: int, d': seq<T>, g': Group, lo: int)
    requires Untouched(data0, gs0, d, gs, j) && j < |gs0| && Layout(data0, gs0, 0)
    requires UnchangedOutside(d', d, lo, EndOf(gs0[j].g))
    ensures Untouched(data0, gs0, d', gs[j := Entry(gs0[j].key, g')], j + 1)
  {
    forall t | j + 1 <= t < |gs0|
      ensures View(d', gs0[t].g) == View(data0, gs0[t].g)
    {
      LayoutOrder(data0, gs0, 0, j, t);
      ViewFrame(d', d, gs0[t].g, lo, EndOf(gs0[j].g));
    }
  }

  /** Placing the finished group j right after the finished groups before it extends the tiled prefix. */
  lemma StepFinished<T>(data0: seq<T>, gs0: seq<Entry>, pend: seq<Pending>, d: seq<T>, gs: seq<Entry>, j: int,
                        d': seq<T>, g': Group, P: seq<int>)
    requires Finished(data0, gs0, pend, d, gs, j) && Untouched(data0, gs0, d, gs, j) && j < |gs0|
    requires Fits(d', g') && g'.base == DoneEnd(gs, j) && EndOf(g') <= EndOf(gs0[j].g)
    requires PosOf(pend, gs0[j].key) == P && View(d', g') == Delete(View(d, gs0[j].g), P, 0)
    requires UnchangedOutside(d', d, DoneEnd(gs, j), EndOf(gs0[j].g))
    ensures Finished(data0, gs0, pend, d', gs[j := Entry(gs0[j].key, g')], j + 1)
  {
    var gs' := gs[j := Entry(gs0[j].key, g')];
    assert DoneEnd(gs', j + 1) == EndOf(g');
    forall t | 0 <= t < j
      ensures Fits(d', gs'[t].g) && View(d', gs'[t].g) == View(d, gs[t].g)
    {
      ViewFrame(d', d, gs[t].g, DoneEnd(gs, j), EndOf(gs0[j].g));
    }
  }

  /**
   * The pointer advances past group j exactly when j is the group of the
   * next listed mask, and the positions listed for group j are then that
   * entry's, and none otherwise.
   */
  lemma {:induction false} StepPointer<T>(s: Store<T>, pend: seq<Pending>, j: int, pi: int)
    requires Valid(s) && PendingFor(s, pend) && Pointer(s.groups, pend, j, pi) && 0 <= j < |s.groups|
    ensures var hit := pi < |pend| && s.groups[j].key == pend[pi].key;
      Pointer(s.groups, pend, j + 1, if hit then pi + 1 else pi)
      && PosOf(pend, s.groups[j].key) == (if hit then pend[pi].positions else [])
  {
    var gs := s.groups;
    FindUnique(gs, j);
    if pi < |pend| && gs[j].key == pend[pi].key {
      forall q | pi < q < |pend|
        ensures j < Find(gs, pend[q].key)
      {
        PendingIndices(s, pend, pi, q);
      }
      PosOfListed(pend, pi);
    } else {
      forall q | pi < q < |pend|
        ensures Find(gs, pend[pi].key) < Find(gs, pend[q].key)
      {
        PendingIndices(s, pend, pi, q);
      }
      forall q | 0 <= q < |pend|
        ensures pend[q].key != gs[j].key
      {
      }
      PosOfUnlisted(pend, gs[j].key);
    }
  }

  /**
   * Group j, with the positions listed for it deleted and moved down to the
   * end of the finished groups, extends the finished prefix; the gap before
   * group j + 1 is the old gap plus the number of records deleted.
   */
  lemma StepInv<T>(s: Store<T>, pend: seq<Pending>, d: seq<T>, gs: seq<Entry>, j: int, pi: int, acc: int,
                   P: seq<int>, d': seq<T>, g': Group, pi': int)
    requires Valid(s) && SweepInv(s.data, s.groups, pend, d, gs, j, pi, acc) && j < |s.groups|
    requires PosOf(pend, s.groups[j].key) == P && Pointer(s.groups, pend, j + 1, pi')
    requires Fits(d', g') && g'.base == DoneEnd(gs, j) && g'.size == s.groups[j].g.size - |P|
    requires View(d', g') == Delete(View(d, s.groups[j].g), P, 0)
    requires UnchangedOutside(d', d, DoneEnd(gs, j), EndOf(s.groups[j].g))
    ensures SweepInv(s.data, s.groups, pend, d', gs[j := Entry(s.groups[j].key, g')], j + 1, pi', acc + |P|)
  {
    StepUntouched(s.data, s.groups, d, gs, j, d', g', DoneEnd(gs, j));
    StepFinished(s.data, s.groups, pend, d, gs, j, d', g', P);
  }

  /** The walk's end state: every group reads as before with its listed positions deleted, and the groups tile the buffer. */
  ghost predicate Swept<T>(data0: seq<T>, gs0: seq<Entry>, pend: seq<Pending>, d: seq<T>, gs: seq<Entry>) {
    Untouched(data0, gs0, d, gs, |gs0|) && Finished(data0, gs0, pend, d, gs, |gs0|)
  }

  /** From a state satisfying the invariant, the corrected walk ends swept. */
  lemma {:induction false} SweepCorrect<T>(s: Store<T>, pend: seq<Pending>, d: seq<T>, gs: seq<Entry>, j: int, pi: int, acc: int)
    requires Valid(s) && PendingFor(s, pend) && SweepInv(s.data, s.groups, pend, d, gs, j, pi, acc)
    ensures Removable(gs, j, pend, pi) && forall t :: j <= t < |gs| ==> Fits(d, gs[t].g)
    ensures var r := Sweep(d, gs, j, pend, pi, acc, false); Swept(s.data, s.groups, pend, r.0, r.1)
    decreases |gs| - j
  {
    RemovableFrom(s, pend, d, gs, j, pi);
    if j < |gs| {
      var n := SweepStep(d, gs, j, pend, pi, acc, false);
      StepCorrect(s, pend, d, gs, j, pi, acc);
      SweepCorrect(s, pend, n.0, n.1, j + 1, n.2, n.3);
    }
  }

  /** The corrected step keeps the invariant. */
  lemma StepCorrect<T>(s: Store<T>, pend: seq<Pending>, d: seq<T>, gs: seq<Entry>, j: int, pi: int, acc: int)
    requires Valid(s) && PendingFor(s, pend) && SweepInv(s.data, s.groups, pend, d, gs, j, pi, acc) && j < |gs|
    ensures Fits(d, gs[j].g) && Removable(gs, j, pend, pi)
    ensures var n := SweepStep(d, gs, j, pend, pi, acc, false);
      SweepInv(s.data, s.groups, pend, n.0, n.1, j + 1, n.2, n.3)
  {
    RemovableFrom(s, pend, d, gs, j, pi);
    StepPointer(s, pend, j, pi);
    assert 0 <= DoneEnd(gs, j) by {
      if j > 0 {
        assert Fits(d, gs[j - 1].g);
      }
    }
    if pi < |pend| && gs[j].key == pend[pi].key {
      StepMatched(s, pend, d, gs, j, pi, acc);
    } else {
      StepUnmatched(s, pend, d, gs, j, pi, acc);
    }
  }

  /** The group of the next listed mask: delete, then roll back by the gap. */
  lemma StepMatched<T>(s: Store<T>, pend: seq<Pending>, d: seq<T>, gs: seq<Entry>, j: int, pi: int, acc: int)
    requires Valid(s) && SweepInv(s.data, s.groups, pend, d, gs, j, pi, acc) && j < |gs| && 0 <= DoneEnd(gs, j)
    requires Fits(d, gs[j].g) && Removable(gs, j, pend, pi)
    requires pi < |pend| && gs[j].key == pend[pi].key
    requires Pointer(s.groups, pend, j + 1, pi + 1) && PosOf(pend, s.groups[j].key) == pend[pi].positions
    ensures var n := SweepStep(d, gs, j, pend, pi, acc, false);
      SweepInv(s.data, s.groups, pend, n.0, n.1, j + 1, n.2, n.3)
  {
    var g0 := s.groups[j].g;
    var P := pend[pi].positions;
    var rem := RemComponent(d, g0, P);
    var rolled := RollCounterClockwise(rem.0.buf, rem.0.g, acc);
    UnchangedOutsideJoin(rolled.buf, rem.0.buf, d, DoneEnd(gs, j), EndOf(g0), rolled.g.base, g0.base, g0.base, EndOf(g0));
    StepInv(s, pend, d, gs, j, pi, acc, P, rolled.buf, rolled.g, pi + 1);
  }

  /** Any other group: roll back by the gap. */
  lemma StepUnmatched<T>(s: Store<T>, pend: seq<Pending>, d: seq<T>, gs: seq<Entry>, j: int, pi: int, acc: int)
    requires Valid(s) && SweepInv(s.data, s.groups, pend, d, gs, j, pi, acc) && j < |gs| && 0 <= DoneEnd(gs, j)
    requires Fits(d, gs[j].g) && Removable(gs, j, pend, pi)
    requires !(pi < |pend| && gs[j].key == pend[pi].key)
    requires Pointer(s.groups, pend, j + 1, pi) && PosOf(pend, s.groups[j].key) == []
    ensures var n := SweepStep(d, gs, j, pend, pi, acc, false);
      SweepInv(s.data, s.groups, pend, n.0, n.1, j + 1, n.2, n.3)
  {
    var g0 := s.groups[j].g;
    var rolled := RollCounterClockwise(d, g0, acc);
    DeleteKeep(View(d, g0), [], 0);
    UnchangedOutsideJoin(rolled.buf, d, d, DoneEnd(gs, j), EndOf(g0), rolled.g.base, g0.base, g0.base, g0.base);
    StepInv(s, pend, d, gs, j, pi, acc, [], rolled.buf, rolled.g, pi);
  }

  /** The walk's end state is a valid storage with the same masks, registry, size and capacity. */
  lemma SweptValid<T>(s: Store<T>, pend: seq<Pending>, d: seq<T>, gs: seq<Entry>)
    requires Valid(s) && Swept(s.data, s.groups, pend, d, gs)
    ensures Valid(s.(data := d, groups := gs))
  {
    if |gs| > 0 {
      assert EndOf(gs[|gs| - 1].g) <= EndOf(s.groups[|gs| - 1].g);
    }
    Reshaped(s, s.(data := d, groups := gs));
  }

  // ---------------------------------------------------------------------------
  // removeComponents and removeComponent

  /**
   * removeComponents(groupIdList): every listed group loses the records at
   * its listed positions, every other group keeps its records, and the
   * groups still tile the buffer in mask order. The source dereferences the
   * list's first entry unconditionally, so the list may not be empty. The
   * used size is not lowered, as in the source.
   */
  function RemoveComponents<T>(s: Store<T>, pend: seq<Pending>): (r: Store<T>)
    requires Valid(s) && PendingFor(s, pend) && |pend| > 0
    ensures Valid(r) && r == s.(data := r.data, groups := r.groups)
    ensures |r.groups| == |s.groups| && forall t :: 0 <= t < |s.groups| ==> r.groups[t].key == s.groups[t].key
    ensures forall t :: 0 <= t < |s.groups| ==>
      View(r.data, r.groups[t].g) == Delete(View(s.data, s.groups[t].g), PosOf(pend, s.groups[t].key), 0)
  {
    var first := Find(s.groups, pend[0].key);
    SweepStart(s, pend);
    SweepCorrect(s, pend, s.data, s.groups, first, 0, 0);
    var w := Sweep(s.data, s.groups, first, pend, 0, 0, false);
    SweptValid(s, pend, w.0, w.1);
    s.(data := w.0, groups := w.1)
  }

  /** In terms of what the storage holds: each mask's records lose exactly the listed positions. */
  lemma RemoveComponentsContents<T>(s: Store<T>, pend: seq<Pending>)
    requires Valid(s) && PendingFor(s, pend) && |pend| > 0
    ensures var r := RemoveComponents(s, pend);
      Contents(r).Keys == Contents(s).Keys
      && forall m :: m in Contents(s) ==> Contents(r)[m] == Delete(Contents(s)[m], PosOf(pend, m), 0)
  {
    var r := RemoveComponents(s, pend);
    ContentsOfReshaped(s, r);
    forall m | m in Contents(s)
      ensures Contents(r)[m] == Delete(Contents(s)[m], PosOf(pend, m), 0)
    {
      var i := Find(s.groups, m);
      assert Find(r.groups, m) == i;
    }
  }

  /**
   * removeComponent(entityId, typeMask): the group with the mask loses the
   * record at logical position pos, and every later group is rolled back by
   * one; the group itself is not rolled. The source asserts that the mask
   * names a group; pos is taken to lie inside it.
   */
  function RemoveComponent<T>(s: Store<T>, pos: int, m: GroupMask): (r: Store<T>)
    requires Valid(s) && m in KeySet(s.groups) && 0 <= pos < s.groups[Find(s.groups, m)].g.size
    ensures Valid(r) && r == s.(data := r.data, groups := r.groups)
    ensures |r.groups| == |s.groups| && forall t :: 0 <= t < |s.groups| ==> r.groups[t].key == s.groups[t].key
    ensures var k := Find(s.groups, m); var v := View(s.data, s.groups[k].g);
      View(r.data, r.groups[k].g) == v[..pos] + v[pos + 1..]
    ensures forall t :: 0 <= t < |s.groups| && s.groups[t].key != m ==>
      View(r.data, r.groups[t].g) == View(s.data, s.groups[t].g)
  {
    RemoveOneCorrect(s, pos, m);
    RemoveOne(s, pos, m)
  }

  /** In terms of what the storage holds: the records under m lose the one at position pos, nothing else changes. */
  lemma RemoveComponentContents<T>(s: Store<T>, pos: int, m: GroupMask)
    requires Valid(s) && m in KeySet(s.groups) && 0 <= pos < s.groups[Find(s.groups, m)].g.size
    ensures m in Contents(s) && 0 <= pos < |Contents(s)[m]|
    ensures var v := Contents(s)[m]; Contents(RemoveComponent(s, pos, m)) == Contents(s)[m := v[..pos] + v[pos + 1..]]
  {
    var k := Find(s.groups, m);
    var v := View(s.data, s.groups[k].g);
    ContentsUpdated(s, RemoveComponent(s, pos, m), k, v[..pos] + v[pos + 1..]);
  }

  /** Removing position pos of a mask that holds v leaves v without that position under the mask. */
  lemma RemoveHeldAt<T>(s: Store<T>, pos: int, m: GroupMask, v: seq<T>, w: seq<T>)
    requires Valid(s) && m in Contents(s) && Contents(s)[m] == v
    requires 0 <= pos < |v| && w == v[..pos] + v[pos + 1..]
    ensures m in KeySet(s.groups) && pos < s.groups[Find(s.groups, m)].g.size
    ensures Contents(RemoveComponent(s, pos, m)) == Contents(s)[m := w]
  {
    HeldSize(s, m);
    RemoveComponentContents(s, pos, m);
  }

  /** The steps of removeComponent: remComponent in the group of m, then the walk over the later groups with a gap of one. */
  function RemoveOne<T>(s: Store<T>, pos: int, m: GroupMask): Store<T>
    requires Valid(s) && m in KeySet(s.groups) && 0 <= pos < s.groups[Find(s.groups, m)].g.size
  {
    var k := Find(s.groups, m);
    var rem := RemComponent(s.data, s.groups[k].g, [pos]);
    var gs := s.groups[k := Entry(m, rem.0.g)];
    RemoveOneStart(s, pos, m);
    SweepCorrect(s, [Pending(m, [pos])], rem.0.buf, gs, k + 1, 1, 1);
    var w := Sweep(rem.0.buf, gs, k + 1, [Pending(m, [pos])], 1, 1, false);
    s.(data := w.0, groups := w.1)
  }

  /**
   * r is the storage s after the record at logical position pos of the
   * group of m is removed: same masks in the same order, that group reads
   * as before without that record, every other group as before.
   */
  ghost predicate RemovedOne<T>(s: Store<T>, pos: int, m: GroupMask, r: Store<T>) {
    Valid(s) && m in KeySet(s.groups) && Valid(r) && r == s.(data := r.data, groups := r.groups)
    && |r.groups| == |s.groups| && (forall t :: 0 <= t < |s.groups| ==> r.groups[t].key == s.groups[t].key)
    && (var k := Find(s.groups, m); var v := View(s.data, s.groups[k].g);
        0 <= pos < |v| && View(r.data, r.groups[k].g) == v[..pos] + v[pos + 1..])
    && forall t :: 0 <= t < |s.groups| && s.groups[t].key != m ==>
         View(r.data, r.groups[t].g) == View(s.data, s.groups[t].g)
  }

  lemma RemoveOneCorrect<T>(s: Store<T>, pos: int, m: GroupMask)
    requires Valid(s) && m in KeySet(s.groups) && 0 <= pos < s.groups[Find(s.groups, m)].g.size
    ensures RemovedOne(s, pos, m, RemoveOne(s, pos, m))
  {
    var r := RemoveOne(s, pos, m);
    RemoveOneWalk(s, pos, m);
    RemoveOneSwept(s, pos, m, r.data, r.groups);
  }

  /** removeComponent's walk ends swept, relative to the one-entry list naming pos in the group of m. */
  lemma RemoveOneWalk<T>(s: Store<T>, pos: int, m: GroupMask)
    requires Valid(s) && m in KeySet(s.groups) && 0 <= pos < s.groups[Find(s.groups, m)].g.size
    ensures var r := RemoveOne(s, pos, m);
      r == s.(data := r.data, groups := r.groups) && Swept(s.data, s.groups, [Pending(m, [pos])], r.data, r.groups)
  {
    var k := Find(s.groups, m);
    var pend := [Pending(m, [pos])];
    var rem := RemComponent(s.data, s.groups[k].g, [pos]);
    var gs := s.groups[k := Entry(m, rem.0.g)];
    RemoveOneStart(s, pos, m);
    SweepCorrect(s, pend, rem.0.buf, gs, k + 1, 1, 1);
  }

  /** The walk's end state, seen as the storage after removeComponent. */
  lemma RemoveOneSwept<T>(s: Store<T>, pos: int, m: GroupMask, d: seq<T>, gs: seq<Entry>)
    requires Valid(s) && m in KeySet(s.groups) && 0 <= pos < s.groups[Find(s.groups, m)].g.size
    requires Swept(s.data, s.groups, [Pending(m, [pos])], d, gs)
    ensures RemovedOne(s, pos, m, s.(data := d, groups := gs))
  {
    SweptValid(s, [Pending(m, [pos])], d, gs);
    RemoveOneViews(s, pos, m, d, gs);
  }

  /** After the removal in the group of m, the walk's invariant holds past it with a gap of one. */
  lemma RemoveOneStart<T>(s: Store<T>, pos: int, m: GroupMask)
    requires Valid(s) && m in KeySet(s.groups) && 0 <= pos < s.groups[Find(s.groups, m)].g.size
    ensures var k := Find(s.groups, m);
      Increasing([pos]) && Within([pos], 0, s.groups[k].g.size)
      && PendingFor(s, [Pending(m, [pos])])
      && var rem := RemComponent(s.data, s.groups[k].g, [pos]);
         SweepInv(s.data, s.groups, [Pending(m, [pos])], rem.0.buf, s.groups[k := Entry(m, rem.0.g)], k + 1, 1, 1)
  {
    var k := Find(s.groups, m);
    var pend := [Pending(m, [pos])];
    SweepStart(s, pend);
    StepPointer(s, pend, k, 0);
    var rem := RemComponent(s.data, s.groups[k].g, [pos]);
    StepInv(s, pend, s.data, s.groups, k, 0, 0, [pos], rem.0.buf, rem.0.g, 1);
  }

  /** The views after removeComponent: one record fewer in the group of m, the rest as before. */
  lemma RemoveOneViews<T>(s: Store<T>, pos: int, m: GroupMask, d: seq<T>, gs: seq<Entry>)
    requires Valid(s) && m in KeySet(s.groups) && 0 <= pos < s.groups[Find(s.groups, m)].g.size
    requires Swept(s.data, s.groups, [Pending(m, [pos])], d, gs)
    ensures var k := Find(s.groups, m); var v := View(s.data, s.groups[k].g);
      Fits(d, gs[k].g) && View(d, gs[k].g) == v[..pos] + v[pos + 1..]
    ensures forall t :: 0 <= t < |s.groups| && s.groups[t].key != m ==>
      Fits(d, gs[t].g) && View(d, gs[t].g) == View(s.data, s.groups[t].g)
  {
    var pend := [Pending(m, [pos])];
    var k := Find(s.groups, m);
    PosOfListed(pend, 0);
    DeleteOne(View(s.data, s.groups[k].g), pos);
    forall t | 0 <= t < |s.groups| && s.groups[t].key != m
      ensures Fits(d, gs[t].g) && View(d, gs[t].g) == View(s.data, s.groups[t].g)
    {
      PosOfUnlisted(pend, s.groups[t].key);
      DeleteKeep(View(s.data, s.groups[t].g), [], 0);
    }
  }

  // ---------------------------------------------------------------------------
  // removeComponents as written

  /**
   * removeComponents as written: the gap grows by remComponent's return
   * value, which counts only the removed records right of the tip, instead
   * of by the number of records removed.
   */
  function RemoveComponentsAsWritten<T>(s: Store<T>, pend: seq<Pending>): (r: Store<T>)
    requires Valid(s) && PendingFor(s, pend) && |pend| > 0
    ensures r == s.(data := r.data, groups := r.groups)
    ensures |r.data| == |s.data| && |r.groups| == |s.groups|
    ensures forall t :: 0 <= t < |s.groups| ==> r.groups[t].key == s.groups[t].key
    ensures forall t :: 0 <= t < Find(s.groups, pend[0].key) ==> r.groups[t] == s.groups[t]
  {
    var first := Find(s.groups, pend[0].key);
    SweepStart(s, pend);
    RemovableFrom(s, pend, s.data, s.groups, first, 0);
    var w := Sweep(s.data, s.groups, first, pend, 0, 0, true);
    s.(data := w.0, groups := w.1)
  }

  /**
   * As written, with two groups, the first one listed and every position
   * removed from it left of its tip, the second group is not moved: a hole
   * opens between the two.
   */
  lemma RemoveComponentsAsWrittenLeavesGap<T>(s: Store<T>, pend: seq<Pending>)
    requires Valid(s) && PendingFor(s, pend) && |pend| == 1 && |s.groups| == 2 && s.groups[0].key == pend[0].key
    requires var g := s.groups[0].g; var P := pend[0].positions;
      0 < |P| && forall t :: 0 <= t < |P| ==> g.size - g.tip <= P[t]
    ensures var r := RemoveComponentsAsWritten(s, pend);
      |r.groups| == 2 && r.groups[1].g.base == s.groups[1].g.base
      && EndOf(r.groups[0].g) < r.groups[1].g.base && !Tiled(r.data, r.groups)
  {
    var gs := s.groups;
    AsWrittenFirstStep(s, pend);
    var n1 := SweepStep(s.data, gs, 0, pend, 0, 0, true);
    AsWrittenSecondStep(n1.0, n1.1, pend);
    assert RemoveComponentsAsWritten(s, pend) == s.(data := Sweep(n1.0, n1.1, 1, pend, 1, 0, true).0, groups := Sweep(n1.0, n1.1, 1, pend, 1, 0, true).1);
  }

  /** The first group loses its records, is not rolled, and the gap stays 0. */
  lemma AsWrittenFirstStep<T>(s: Store<T>, pend: seq<Pending>)
    requires Valid(s) && PendingFor(s, pend) && |pend| == 1 && |s.groups| == 2 && s.groups[0].key == pend[0].key
    requires var g := s.groups[0].g; var P := pend[0].positions;
      0 < |P| && forall t :: 0 <= t < |P| ==> g.size - g.tip <= P[t]
    ensures Find(s.groups, pend[0].key) == 0
    ensures Fits(s.data, s.groups[0].g) && Fits(s.data, s.groups[1].g) && Removable(s.groups, 0, pend, 0)
    ensures var n := SweepStep(s.data, s.groups, 0, pend, 0, 0, true);
      |n.1| == 2 && n.1[0].g.base == 0 && EndOf(n.1[0].g) < n.1[1].g.base == s.groups[1].g.base
      && n.2 == 1 && n.3 == 0 && Fits(n.0, n.1[1].g) && Removable(n.1, 1, pend, 1)
  {
    var gs := s.groups;
    var P := pend[0].positions;
    assert Find(gs, pend[0].key) == 0;
    SweepStart(s, pend);
    RemovableFrom(s, pend, s.data, gs, 0, 0);
    var rem := RemComponent(s.data, gs[0].g, P);
    assert gs[0].g.size - gs[0].g.tip <= P[0];
    assert rem.1 == 0;
    SweepNext(s.data, gs, 0, pend, 0, 0, true);
  }

  /** The second group is rolled back by the gap 0, which leaves it in place, and the walk ends. */
  lemma AsWrittenSecondStep<T>(d: seq<T>, gs: seq<Entry>, pend: seq<Pending>)
    requires |gs| == 2 && |pend| == 1 && Fits(d, gs[1].g) && Removable(gs, 1, pend, 1)
    ensures var n := SweepStep(d, gs, 1, pend, 1, 0, true);
      Sweep(d, gs, 1, pend, 1, 0, true) == (n.0, n.1) && |n.1| == 2 && n.1[0] == gs[0] && n.1[1].g.base == gs[1].g.base
  {
    SweepNext(d, gs, 1, pend, 1, 0, true);
  }

  /**
   * Corrected, the second group moves down by the number of records
   * removed from the first and starts where the first now ends.
   */
  lemma RemoveComponentsClosesGap<T>(s: Store<T>, pend: seq<Pending>)
    requires Valid(s) && PendingFor(s, pend) && |pend| == 1 && 2 <= |s.groups| && s.groups[0].key == pend[0].key
    ensures var r := RemoveComponents(s, pend);
      r.groups[1].g.base == s.groups[1].g.base - |pend[0].positions| == EndOf(r.groups[0].g)
  {
    var gs := s.groups;
    var P := pend[0].positions;
    assert Find(gs, pend[0].key) == 0;
    var r := RemoveComponents(s, pend);
    PosOfListed(pend, 0);
    var rem := RemComponent(s.data, gs[0].g, P);
    assert |View(r.data, r.groups[0].g)| == gs[0].g.size - |P|;
  }

  /** Two groups: A = [8, 7] with its tip at 1, then B = [9]. */
  function GapExample(): Store<int> {
    Store(0, 3, 3, [7, 8, 9], [Entry(GroupMask(1, 1), Group(0, 2, 1)), Entry(GroupMask(2, 1), Group(2, 1, 0))], map[])
  }

  /**
   * Removing logical position 1 of A, the record 7 left of the tip, meets
   * the conditions of RemoveComponentsAsWrittenLeavesGap: as written B
   * stays at slot 2 and slot 1 is a hole; corrected, B moves to slot 1.
   */
  lemma GapExampleQualifies()
    ensures var s := GapExample(); var pend := [Pending(GroupMask(1, 1), [1])];
      Valid(s) && PendingFor(s, pend) && s.groups[0].key == pend[0].key
      && s.groups[0].g.size - s.groups[0].g.tip <= pend[0].positions[0]
  {
    var s := GapExample();
    assert Find(s.groups, GroupMask(1, 1)) == 0;
  }
}
