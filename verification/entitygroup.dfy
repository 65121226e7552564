/**
 * The group specialisation for entity records, ComponentsGroup<EntityProxy>
 * (src/ravine/ecs/EntityGroup.hpp).
 *
 * It moves records exactly like the generic group, and in addition stamps
 * each record it writes or moves with a groupId and logs the pair
 * (uniqueId, groupId) to its lookupBuffer. The intended meaning of groupId is
 * the record's logical index in its group; Labelled says that it holds.
 */
module EntityGroups {
  import opened FastMath
  import opened Groups

  /** The record of the EntityProxy storage: the entity's id and where it sits in its group. */
  datatype EntityProxy = EntityProxy(uniqueId: int, groupId: int)

  /** An entry of the lookup buffer. */
  datatype EntityLookup = EntityLookup(entityId: int, groupPos: int)

  /** EntityLookup::operator<, which looks at the entity id only. */
  predicate LookupLess(a: EntityLookup, b: EntityLookup) {
    a.entityId < b.entityId
  }

  /**
   * LookupLess is a strict weak order whose equivalence classes are the
   * entries of one entity: two entries are unordered exactly when they name
   * the same entity, whatever positions they carry.
   */
  lemma LookupLessIsStrictWeakOrder(a: EntityLookup, b: EntityLookup, c: EntityLookup)
    ensures !LookupLess(a, a)
    ensures LookupLess(a, b) && LookupLess(b, c) ==> LookupLess(a, c)
    ensures !LookupLess(a, b) && !LookupLess(b, a) <==> a.entityId == b.entityId
    ensures a.entityId == b.entityId ==> (LookupLess(a, c) <==> LookupLess(b, c))
  {
  }

  /** The entity ids of a list of records. */
  function Uids(s: seq<EntityProxy>): (r: seq<int>)
    ensures |r| == |s|
  {
    seq(|s|, i requires 0 <= i < |s| => s[i].uniqueId)
  }

  /** The lookup entries for a list of records: each record's id with its stored groupId. */
  function Lookups(s: seq<EntityProxy>): (r: seq<EntityLookup>)
    ensures |r| == |s|
  {
    seq(|s|, i requires 0 <= i < |s| => EntityLookup(s[i].uniqueId, s[i].groupId))
  }

  /** Every record of the group carries its logical index as groupId. */
  ghost predicate Labelled(buf: seq<EntityProxy>, g: Group)
    requires Fits(buf, g)
  {
    forall i :: 0 <= i < g.size ==> View(buf, g)[i].groupId == i
  }

  // ---------------------------------------------------------------------------
  // Moving records does not change which entities are where

  lemma UidsWrite(s: seq<EntityProxy>, dst: int, src: seq<EntityProxy>)
    requires 0 <= dst && dst + |src| <= |s|
    ensures Uids(Write(s, dst, src)) == Write(Uids(s), dst, Uids(src))
  {
  }

  lemma UidsSlice(s: seq<EntityProxy>, a: int, b: int)
    requires 0 <= a <= b <= |s|
    ensures Uids(s[a..b]) == Uids(s)[a..b]
  {
  }

  // ---------------------------------------------------------------------------
  // addComponent

  /** The groupId addComponent as written stores in the k-th record of a batch of count. */
  function AddLabelAsWritten(g: Group, count: int, k: int): int {
    var rc, lc := RightCount(g, count), LeftCount(g, count);
    if k < rc then g.size + k else g.size - lc + rc + (k - rc)
  }

  /**
   * The groupId of the k-th record of a batch: its logical index once the
   * batch is in. A record written at the slice end, at physical offset
   * size + k, sits at logical index size + k - tip.
   */
  function AddLabel(g: Group, count: int, k: int): int {
    var rc, lc := RightCount(g, count), LeftCount(g, count);
    if k < rc then g.size - g.tip + k else g.size - lc + rc + (k - rc)
  }

  function StampAsWritten(g: Group, comps: seq<EntityProxy>): (r: seq<EntityProxy>)
    ensures |r| == |comps| && Uids(r) == Uids(comps)
    ensures forall k :: 0 <= k < |r| ==> r[k].groupId == AddLabelAsWritten(g, |comps|, k)
  {
    seq(|comps|, k requires 0 <= k < |comps| => comps[k].(groupId := AddLabelAsWritten(g, |comps|, k)))
  }

  function Stamp(g: Group, comps: seq<EntityProxy>): (r: seq<EntityProxy>)
    ensures |r| == |comps| && Uids(r) == Uids(comps)
    ensures forall k :: 0 <= k < |r| ==> r[k].groupId == AddLabel(g, |comps|, k)
  {
    seq(|comps|, k requires 0 <= k < |comps| => comps[k].(groupId := AddLabel(g, |comps|, k)))
  }

  /**
   * The two labellings agree on a batch exactly when no record lands at the
   * slice end while the tip is off zero: they differ whenever 0 < tip < count.
   */
  lemma AddLabelAsWrittenAgrees(g: Group, count: int)
    requires WellFormed(g) && count >= 1
    ensures (forall k :: 0 <= k < count ==> AddLabelAsWritten(g, count, k) == AddLabel(g, count, k))
            <==> (g.tip == 0 || count <= g.tip)
  {
    if !(g.tip == 0 || count <= g.tip) {
      assert AddLabelAsWritten(g, count, 0) != AddLabel(g, count, 0);
    }
  }

  /**
   * addComponent(comps, count) as written: the records go where the generic
   * group puts them, stamped by AddLabelAsWritten, and each written record's
   * (uniqueId, groupId) is appended to the log, slice-end part first.
   */
  function AddComponentAsWritten(buf: seq<EntityProxy>, g: Group, comps: seq<EntityProxy>, log: seq<EntityLookup>)
    : (r: (Placed<EntityProxy>, seq<EntityLookup>))
    requires Fits(buf, g) && g.base + g.size + RightCount(g, |comps|) <= |buf|
    ensures r.0.g == g.(size := g.size + RightCount(g, |comps|)) && Fits(r.0.buf, r.0.g)
    ensures Uids(r.0.buf) == AddComponent(Uids(buf), g, Uids(comps)).buf
    ensures |r.1| == |log| + |comps| && r.1[..|log|] == log
    ensures forall k :: 0 <= k < |comps| ==>
              r.1[|log| + k] == EntityLookup(comps[k].uniqueId, AddLabelAsWritten(g, |comps|, k))
  {
    var s := StampAsWritten(g, comps);
    var a := AddComponent(buf, g, s);
    AddUids(buf, g, s);
    (a, log + Lookups(s))
  }

  /** addComponent(comps, count) with each record stamped by its logical index. */
  function EntityAddComponent(buf: seq<EntityProxy>, g: Group, comps: seq<EntityProxy>, log: seq<EntityLookup>)
    : (r: (Placed<EntityProxy>, seq<EntityLookup>))
    requires Fits(buf, g) && g.base + g.size + RightCount(g, |comps|) <= |buf|
    ensures r.0.g == g.(size := g.size + RightCount(g, |comps|)) && Fits(r.0.buf, r.0.g)
    ensures Uids(r.0.buf) == AddComponent(Uids(buf), g, Uids(comps)).buf
    ensures |r.1| == |log| + |comps| && r.1[..|log|] == log
    ensures forall k :: 0 <= k < |comps| ==> r.1[|log| + k] == EntityLookup(comps[k].uniqueId, AddLabel(g, |comps|, k))
  {
    var s := Stamp(g, comps);
    var a := AddComponent(buf, g, s);
    AddUids(buf, g, s);
    (a, log + Lookups(s))
  }

  /** The generic addComponent commutes with taking entity ids. */
  lemma AddUids(buf: seq<EntityProxy>, g: Group, s: seq<EntityProxy>)
    requires Fits(buf, g) && g.base + g.size + RightCount(g, |s|) <= |buf|
    ensures Uids(AddComponent(buf, g, s).buf) == AddComponent(Uids(buf), g, Uids(s)).buf
  {
    var rc := RightCount(g, |s|);
    var d1, d2 := g.base + g.size, g.base + g.tip - LeftCount(g, |s|);
    assert AddComponent(buf, g, s).buf == Write(Write(buf, d1, s[..rc]), d2, s[rc..]);
    assert AddComponent(Uids(buf), g, Uids(s)).buf == Write(Write(Uids(buf), d1, Uids(s)[..rc]), d2, Uids(s)[rc..]);
    UidsTwoWrites(buf, s, d1, d2, rc);
  }

  /** Two writes of the halves of a batch commute with taking entity ids. */
  lemma UidsTwoWrites(buf: seq<EntityProxy>, s: seq<EntityProxy>, d1: int, d2: int, rc: int)
    requires 0 <= rc <= |s| && 0 <= d1 && d1 + rc <= |buf| && 0 <= d2 && d2 + |s| - rc <= |buf|
    ensures Uids(Write(Write(buf, d1, s[..rc]), d2, s[rc..]))
      == Write(Write(Uids(buf), d1, Uids(s)[..rc]), d2, Uids(s)[rc..])
  {
    var buf1 := Write(buf, d1, s[..rc]);
    assert Uids(buf1) == Write(Uids(buf), d1, Uids(s)[..rc]) by {
      UidsWrite(buf, d1, s[..rc]);
      UidsSlice(s, 0, rc);
    }
    UidsWrite(buf1, d2, s[rc..]);
    UidsSlice(s, rc, |s|);
  }

  /**
   * The storage's insertion step, shiftClockwise(count) then addComponent,
   * on a labelled group: the batch is appended in order, the group stays
   * labelled, and the log gains one entry per new record naming its logical
   * index, in batch order.
   */
  lemma ShiftThenAddLabels(buf: seq<EntityProxy>, g: Group, comps: seq<EntityProxy>, log: seq<EntityLookup>)
    requires Fits(buf, g) && g.base + g.size + |comps| <= |buf| && Labelled(buf, g)
    ensures var s := ShiftClockwise(buf, g, |comps|).0;
      s.g.base + s.g.size + RightCount(s.g, |comps|) <= |buf|
    ensures var s := ShiftClockwise(buf, g, |comps|).0;
      var r := EntityAddComponent(s.buf, s.g, comps, log);
      r.0.g == g.(size := g.size + |comps|) && Labelled(r.0.buf, r.0.g)
      && Uids(View(r.0.buf, r.0.g)) == Uids(View(buf, g)) + Uids(comps)
      && r.1 == log + seq(|comps|, k requires 0 <= k < |comps| => EntityLookup(comps[k].uniqueId, g.size + k))
  {
    var s := ShiftClockwise(buf, g, |comps|).0;
    var st := Stamp(s.g, comps);
    ShiftThenAddAppends(buf, g, st);
    StampAfterShift(buf, g, comps);
    LabelsAppend(View(buf, g), st);
    LogAfterShift(buf, g, comps, log);
  }

  /** After shiftClockwise(count), the stamps of a batch of count are the indices following the old records. */
  lemma StampAfterShift(buf: seq<EntityProxy>, g: Group, comps: seq<EntityProxy>)
    requires Fits(buf, g) && g.base + g.size + |comps| <= |buf|
    ensures var s := ShiftClockwise(buf, g, |comps|).0;
      forall k :: 0 <= k < |comps| ==> Stamp(s.g, comps)[k].groupId == g.size + k
  {
  }

  lemma LabelsAppend(v: seq<EntityProxy>, st: seq<EntityProxy>)
    requires forall i :: 0 <= i < |v| ==> v[i].groupId == i
    requires forall k :: 0 <= k < |st| ==> st[k].groupId == |v| + k
    ensures forall i :: 0 <= i < |v + st| ==> (v + st)[i].groupId == i
  {
    forall i | 0 <= i < |v + st|
      ensures (v + st)[i].groupId == i
    {
      if i >= |v| {
        assert (v + st)[i] == st[i - |v|];
      }
    }
  }

  lemma LogAfterShift(buf: seq<EntityProxy>, g: Group, comps: seq<EntityProxy>, log: seq<EntityLookup>)
    requires Fits(buf, g) && g.base + g.size + |comps| <= |buf|
    ensures var s := ShiftClockwise(buf, g, |comps|).0;
      s.g.base + s.g.size + RightCount(s.g, |comps|) <= |buf|
      && EntityAddComponent(s.buf, s.g, comps, log).1
         == log + seq(|comps|, k requires 0 <= k < |comps| => EntityLookup(comps[k].uniqueId, g.size + k))
  {
    var s := ShiftClockwise(buf, g, |comps|).0;
    var r := EntityAddComponent(s.buf, s.g, comps, log);
    var e := seq(|comps|, k requires 0 <= k < |comps| => EntityLookup(comps[k].uniqueId, g.size + k));
    forall i | 0 <= i < |r.1|
      ensures r.1[i] == (log + e)[i]
    {
      if i < |log| {
        assert r.1[..|log|][i] == log[i];
      }
    }
  }

  /**
   * A one-record group with its tip at 1 receiving two records: after the
   * shift the group is [old] with one free slot before the tip, the first
   * new record goes to the slice end at logical index 1, but the code as
   * written labels it 2; the corrected stamp labels it 1.
   */
  lemma AddComponentAsWrittenMislabels()
    ensures var buf := [EntityProxy(10, 0), EntityProxy(0, 0), EntityProxy(0, 0)];
      var s := ShiftClockwise(buf, Group(0, 1, 1), 2).0;
      s.g == Group(0, 2, 1) && s.g.base + s.g.size + RightCount(s.g, 2) <= |buf|
      && var comps := [EntityProxy(20, 0), EntityProxy(30, 0)];
      var w := AddComponentAsWritten(s.buf, s.g, comps, []);
      var c := EntityAddComponent(s.buf, s.g, comps, []);
      View(w.0.buf, w.0.g)[1] == EntityProxy(20, 2)
      && View(c.0.buf, c.0.g)[1] == EntityProxy(20, 1)
  {
    var buf := [EntityProxy(10, 0), EntityProxy(0, 0), EntityProxy(0, 0)];
    var s := ShiftClockwise(buf, Group(0, 1, 1), 2).0;
    assert s.g == Group(0, 2, 1);
    var comps := [EntityProxy(20, 0), EntityProxy(30, 0)];
    assert RightCount(s.g, 2) == 1;
    var w := AddComponentAsWritten(s.buf, s.g, comps, []);
    var c := EntityAddComponent(s.buf, s.g, comps, []);
    assert w.0.buf[2] == EntityProxy(20, 2);
    assert c.0.buf[2] == EntityProxy(20, 1);
    ViewAt(w.0.buf, w.0.g, 1);
    ViewAt(c.0.buf, c.0.g, 1);
  }

  // ---------------------------------------------------------------------------
  // remComponent

  /** The label loop after each memmove: the records of s[lo..hi] get their groupId lowered by d. */
  function Dec(s: seq<EntityProxy>, lo: int, hi: int, d: int): (r: seq<EntityProxy>)
    requires 0 <= lo <= hi <= |s|
    ensures |r| == |s| && Uids(r) == Uids(s)
    ensures forall i :: 0 <= i < |s| ==> r[i].groupId == if lo <= i < hi then s[i].groupId - d else s[i].groupId
  {
    seq(|s|, i requires 0 <= i < |s| => if lo <= i < hi then s[i].(groupId := s[i].groupId - d) else s[i])
  }

  /**
   * The first pass as written, over the run right of the tip: each squeezed
   * run of k positions moves the block above it down by k, lowers the moved
   * records' groupId by k and logs them.
   */
  function EntityCompressRight(X: seq<EntityProxy>, P: seq<int>, i: int): (r: (seq<EntityProxy>, seq<EntityLookup>))
    requires Increasing(P) && 0 <= i <= |P|
    requires forall t :: 0 <= t < i ==> 0 <= P[t] < |X|
    ensures |r.0| == |X|
    decreases i
  {
    if i == 0 then
      (X, [])
    else
      var k := RunDown(P, i - 1, 1);
      var m := i - k;
      assert P[m] - m == P[i - 1] - (i - 1);
      var n := |X| - (P[i - 1] + 1);
      var X2 := Dec(Move(X, P[m], P[i - 1] + 1, n), P[m], P[m] + n, k);
      var rest := EntityCompressRight(X2, P, m);
      (rest.0, Lookups(X2[P[m] .. P[m] + n]) + rest.1)
  }

  /**
   * The second pass as written, over the run left of the tip: each squeezed
   * run of k positions moves the q records before it up by k, lowers the
   * moved records' groupId by k + L (L the removals right of the tip) and
   * logs them.
   */
  function EntityCompressLeft(Y: seq<EntityProxy>, P: seq<int>, j: int, rs: int, L: int): (r: (seq<EntityProxy>, seq<EntityLookup>))
    requires Increasing(P) && 0 <= j <= |P|
    requires forall t :: j <= t < |P| ==> rs <= P[t] < rs + |Y|
    ensures |r.0| == |Y|
    decreases |P| - j
  {
    if j == |P| then
      (Y, [])
    else
      var k := RunUp(P, j, 1);
      var q := P[j] - rs;
      LeftRunFits(P, j, rs, |Y|, k);
      var Y2 := Dec(Move(Y, k, 0, q), k, k + q, k + L);
      var rest := EntityCompressLeft(Y2, P, j + k, rs, L);
      (rest.0, Lookups(Y2[k .. k + q]) + rest.1)
  }

  /** The records before a run of removals left of the tip, plus the run, fit in that run. */
  lemma LeftRunFits(P: seq<int>, j: int, rs: int, n: int, k: int)
    requires Increasing(P) && 0 <= j < |P| && k == RunUp(P, j, 1)
    requires forall t :: j <= t < |P| ==> rs <= P[t] < rs + n
    ensures 0 <= P[j] - rs && k + (P[j] - rs) <= n
  {
    assert P[j + k - 1] - (j + k - 1) == P[j] - j;
  }

  /**
   * remComponent(positions, count) as written: both passes, then the final
   * roll as written. The group shrinks by the count, keeps its base when the
   * roll does not outrun the shrunk group, the result is the number of
   * removals right of the tip, and the lookup buffer is only appended to.
   */
  function RemComponentAsWritten(buf: seq<EntityProxy>, g: Group, P: seq<int>, log: seq<EntityLookup>)
    : (r: (Placed<EntityProxy>, int, seq<EntityLookup>))
    requires Fits(buf, g) && Increasing(P) && Within(P, 0, g.size)
    ensures 0 <= r.1 <= |P| && forall t :: 0 <= t < |P| ==> (t < r.1 <==> P[t] < g.size - g.tip)
    ensures r.0.g.size == g.size - |P| && Fits(r.0.buf, r.0.g)
    ensures |P| - r.1 <= g.size - |P| ==> r.0.g.base == g.base
    ensures |log| <= |r.2| && r.2[..|log|] == log
  {
    var L := CountBelow(P, g.size - g.tip);
    CountBelowSplits(P, g.size - g.tip);
    var ex := EntityCompressRight(buf[g.base + g.tip .. g.base + g.size], P, L);
    var ey := EntityCompressLeft(buf[g.base .. g.base + g.tip], P, L, g.size - g.tip, L);
    SplitCounts(P, L, g.size - g.tip, g.size);
    var buf1 := buf[..g.base] + ey.0 + ex.0 + buf[g.base + g.size..];
    var g1 := Group(g.base + (|P| - L), g.size - |P|, g.tip - (|P| - L));
    Reassembled(buf, g, ey.0, ex.0, buf1);
    AppendKeepsPrefix(log, ex.1, ey.1);
    (RollCounterClockwiseAsWritten(buf1, g1, |P| - L), L, log + ex.1 + ey.1)
  }

  /** Putting back the two runs of a group, each as long as before, keeps the buffer's length. */
  lemma Reassembled<T>(buf: seq<T>, g: Group, left: seq<T>, right: seq<T>, buf1: seq<T>)
    requires Fits(buf, g) && |left| == g.tip && |right| == g.size - g.tip
    requires buf1 == buf[..g.base] + left + right + buf[g.base + g.size..]
    ensures |buf1| == |buf|
  {
  }

  /** Appending to a log keeps it as a prefix. */
  lemma AppendKeepsPrefix<U>(log: seq<U>, a: seq<U>, b: seq<U>)
    ensures |log| <= |log + a + b| && (log + a + b)[..|log|] == log
  {
    assert log + a + b == log + (a + b);
  }

  /** Of increasing positions below size, the L below rs number at most rs and the rest at most size - rs. */
  lemma SplitCounts(P: seq<int>, L: int, rs: int, size: int)
    requires Increasing(P) && Within(P, 0, size) && 0 <= rs <= size
    requires 0 <= L <= |P| && forall t :: 0 <= t < |P| ==> (t < L <==> P[t] < rs)
    ensures L <= rs && |P| - L <= size - rs
  {
    if L > 0 {
      Spacing(P, 0, L - 1);
      assert 0 <= P[0] && P[L - 1] < rs;
    }
    if L < |P| {
      Spacing(P, L, |P| - 1);
      assert rs <= P[L] && P[|P| - 1] < size;
    }
  }

  /**
   * The counterexample: three records labelled in logical order, the group
   * at 0 of size 3 with its tip at 2, so that it reads [3, 1, 2] by id.
   * Removing logical position 2 (id 2) moves id 1 within the run left of the
   * tip and lowers its groupId by 1 although its logical index stays 1. As
   * written the group then reads id 3 and id 1, with id 1 labelled 0; the
   * corrected remComponent leaves it labelled 1.
   */
  lemma RemComponentAsWrittenMislabels()
    ensures var buf := [EntityProxy(1, 1), EntityProxy(2, 2), EntityProxy(3, 0)];
      var g := Group(0, 3, 2);
      Labelled(buf, g)
      && var w := RemComponentAsWritten(buf, g, [2], []).0;
      var c := EntityRemComponent(buf, g, [2], []).0;
      View(w.buf, w.g) == [EntityProxy(3, 0), EntityProxy(1, 0)]
      && View(c.buf, c.g) == [EntityProxy(3, 0), EntityProxy(1, 1)]
  {
    ExampleLabelled();
    RemAsWrittenExample();
    RemCorrectedExample();
  }

  lemma ExampleLabelled()
    ensures Labelled([EntityProxy(1, 1), EntityProxy(2, 2), EntityProxy(3, 0)], Group(0, 3, 2))
  {
    var buf := [EntityProxy(1, 1), EntityProxy(2, 2), EntityProxy(3, 0)];
    var g := Group(0, 3, 2);
    var v := View(buf, g);
    assert v == [EntityProxy(3, 0), EntityProxy(1, 1), EntityProxy(2, 2)] by { ExampleView(); }
    assert forall i :: 0 <= i < g.size ==> v[i].groupId == i;
  }

  lemma ExampleView()
    ensures View([EntityProxy(1, 1), EntityProxy(2, 2), EntityProxy(3, 0)], Group(0, 3, 2))
            == [EntityProxy(3, 0), EntityProxy(1, 1), EntityProxy(2, 2)]
  {
    var buf := [EntityProxy(1, 1), EntityProxy(2, 2), EntityProxy(3, 0)];
    var g := Group(0, 3, 2);
    ViewAt(buf, g, 0);
    ViewAt(buf, g, 1);
    ViewAt(buf, g, 2);
  }

  lemma RemAsWrittenExample()
    ensures var w := RemComponentAsWritten([EntityProxy(1, 1), EntityProxy(2, 2), EntityProxy(3, 0)], Group(0, 3, 2), [2], []).0;
      View(w.buf, w.g) == [EntityProxy(3, 0), EntityProxy(1, 0)]
  {
    PassesExample();
    RollExample();
  }

  lemma PassesExample()
    ensures var buf := [EntityProxy(1, 1), EntityProxy(2, 2), EntityProxy(3, 0)];
      CountBelow([2], 1) == 0
      && buf[..0] + EntityCompressLeft(buf[0 .. 2], [2], 0, 1, 0).0 + EntityCompressRight(buf[2 .. 3], [2], 0).0 + buf[3..]
         == [EntityProxy(1, 1), EntityProxy(1, 0), EntityProxy(3, 0)]
  {
    var buf := [EntityProxy(1, 1), EntityProxy(2, 2), EntityProxy(3, 0)];
    assert buf[0 .. 2] == [EntityProxy(1, 1), EntityProxy(2, 2)];
    assert buf[2 .. 3] == [EntityProxy(3, 0)];
    LeftExample();
  }

  lemma RollExample()
    ensures var w := RollCounterClockwiseAsWritten([EntityProxy(1, 1), EntityProxy(1, 0), EntityProxy(3, 0)], Group(1, 2, 1), 1);
      View(w.buf, w.g) == [EntityProxy(3, 0), EntityProxy(1, 0)]
  {
    var w := RollCounterClockwiseAsWritten([EntityProxy(1, 1), EntityProxy(1, 0), EntityProxy(3, 0)], Group(1, 2, 1), 1);
    assert w.buf == [EntityProxy(3, 0), EntityProxy(1, 0), EntityProxy(3, 0)];
    assert w.g == Group(0, 2, 0);
    ViewAt(w.buf, w.g, 0);
    ViewAt(w.buf, w.g, 1);
  }

  lemma LeftExample()
    ensures EntityCompressLeft([EntityProxy(1, 1), EntityProxy(2, 2)], [2], 0, 1, 0).0
            == [EntityProxy(1, 1), EntityProxy(1, 0)]
  {
    var Y := [EntityProxy(1, 1), EntityProxy(2, 2)];
    assert RunUp([2], 0, 1) == 1;
    var Y2 := Dec(Move(Y, 1, 0, 1), 1, 2, 1);
    assert Y2 == [EntityProxy(1, 1), EntityProxy(1, 0)];
  }

  lemma RemCorrectedExample()
    ensures var c := EntityRemComponent([EntityProxy(1, 1), EntityProxy(2, 2), EntityProxy(3, 0)], Group(0, 3, 2), [2], []).0;
      View(c.buf, c.g) == [EntityProxy(3, 0), EntityProxy(1, 1)]
  {
    ExampleView();
    DeleteLast();
  }

  lemma DeleteLast()
    ensures Delete([EntityProxy(3, 0), EntityProxy(1, 1), EntityProxy(2, 2)], [2], 0) == [EntityProxy(3, 0), EntityProxy(1, 1)]
  {
    var s := [EntityProxy(3, 0), EntityProxy(1, 1), EntityProxy(2, 2)];
    assert s[1..][1..][1..] == [];
  }

  // ---------------------------------------------------------------------------
  // The rolls and the shift move records without touching them

  /**
   * rollClockwise, rollCounterClockwise and shiftClockwise are the generic
   * ones: they change no record, so a labelled group stays labelled (for the
   * shift, on the records it had before), and they log nothing.
   */
  lemma MovesKeepLabels(buf: seq<EntityProxy>, g: Group, count: int)
    requires Fits(buf, g) && count >= 0 && Labelled(buf, g)
    ensures g.base + g.size + count <= |buf| ==>
      var r := RollClockwise(buf, g, count); Labelled(r.buf, r.g)
    ensures var r := RollCounterClockwise(buf, g, count); Labelled(r.buf, r.g)
    ensures g.base + g.size + (if count < g.tip then count else g.tip) <= |buf| ==>
      var r := ShiftClockwise(buf, g, count).0;
      forall i :: 0 <= i < g.size ==> View(r.buf, r.g)[i].groupId == i
  {
    if g.base + g.size + (if count < g.tip then count else g.tip) <= |buf| {
      var r := ShiftClockwise(buf, g, count).0;
      forall i | 0 <= i < g.size
        ensures View(r.buf, r.g)[i].groupId == i
      {
        assert View(r.buf, r.g)[..g.size][i] == View(buf, g)[i];
      }
    }
  }

  // ---------------------------------------------------------------------------
  // remComponent, corrected: every record whose logical index changed is
  // stamped with its new index and logged

  /** The logical index of the record at a physical address of the slice; the inverse of PhysOf. */
  function IndexOf(g: Group, a: int): int {
    if a - g.base >= g.tip then a - g.base - g.tip else a - g.base + (g.size - g.tip)
  }

  lemma IndexOfPhysOf(g: Group, i: int)
    requires WellFormed(g) && 0 <= i < g.size
    ensures g.base <= PhysOf(g, i) < g.base + g.size && IndexOf(g, PhysOf(g, i)) == i
  {
  }

  /**
   * Stamps every record at logical index from or above with that index and
   * leaves everything else as it is.
   */
  function Relabel(buf: seq<EntityProxy>, g: Group, from: int): (r: seq<EntityProxy>)
    requires Fits(buf, g)
    ensures Fits(r, g) && UnchangedOutside(r, buf, g.base, g.base + g.size)
    ensures forall i :: 0 <= i < g.size ==>
      View(r, g)[i] == if i < from then View(buf, g)[i] else View(buf, g)[i].(groupId := i)
  {
    var r := seq(|buf|, a requires 0 <= a < |buf| =>
      if g.base <= a < g.base + g.size && IndexOf(g, a) >= from then buf[a].(groupId := IndexOf(g, a)) else buf[a]);
    assert forall i :: 0 <= i < g.size ==>
      View(r, g)[i] == if i < from then View(buf, g)[i] else View(buf, g)[i].(groupId := i) by {
      forall i | 0 <= i < g.size
        ensures View(r, g)[i] == if i < from then View(buf, g)[i] else View(buf, g)[i].(groupId := i)
      {
        IndexOfPhysOf(g, i);
      }
    }
    r
  }

  /** The first logical index remComponent can change: the first listed position. */
  function FirstMoved(P: seq<int>, size: int): int {
    if |P| == 0 then size else P[0]
  }

  /**
   * remComponent, corrected: the records move as the generic remComponent
   * moves them (so in logical order they are the old ones with the listed
   * positions deleted), every record from the first listed position on gets
   * its new logical index as groupId and is logged with it, and the records
   * before it are untouched. A labelled group stays labelled.
   */
  function EntityRemComponent(buf: seq<EntityProxy>, g: Group, P: seq<int>, log: seq<EntityLookup>)
    : (r: (Placed<EntityProxy>, int, seq<EntityLookup>))
    requires Fits(buf, g) && Increasing(P) && Within(P, 0, g.size)
    ensures 0 <= r.1 <= |P| && forall t :: 0 <= t < |P| ==> (t < r.1 <==> P[t] < g.size - g.tip)
    ensures r.0.g.base == g.base && r.0.g.size == g.size - |P| && Fits(r.0.buf, r.0.g)
    ensures UnchangedOutside(r.0.buf, buf, g.base, g.base + g.size)
    ensures var first := FirstMoved(P, g.size - |P|);
      var D := Delete(View(buf, g), P, 0);
      first <= r.0.g.size == |D|
      && (forall i :: 0 <= i < r.0.g.size ==> View(r.0.buf, r.0.g)[i].uniqueId == D[i].uniqueId)
      && (forall i :: 0 <= i < first ==> View(r.0.buf, r.0.g)[i] == View(buf, g)[i])
      && (forall i :: first <= i < r.0.g.size ==> View(r.0.buf, r.0.g)[i].groupId == i)
      && r.2 == log + Lookups(View(r.0.buf, r.0.g)[first..])
    ensures Labelled(buf, g) ==> Labelled(r.0.buf, r.0.g)
  {
    var rem := Groups.RemComponent(buf, g, P);
    var first := FirstMoved(P, g.size - |P|);
    var buf' := Relabel(rem.0.buf, rem.0.g, first);
    RelabelledFacts(buf, g, P, rem.0, first, buf');
    (Placed(buf', rem.0.g), rem.1, log + Lookups(View(buf', rem.0.g)[first..]))
  }

  /**
   * What relabelling from the first listed position does to the outcome of
   * the generic remComponent: ids in the order of the deletion, records
   * before the first position untouched, the rest labelled by index.
   */
  lemma RelabelledFacts(buf: seq<EntityProxy>, g: Group, P: seq<int>, rem: Placed<EntityProxy>, first: int, buf': seq<EntityProxy>)
    requires Fits(buf, g) && Increasing(P) && Within(P, 0, g.size)
    requires rem.g.base == g.base && rem.g.size == g.size - |P| && Fits(rem.buf, rem.g)
    requires View(rem.buf, rem.g) == Delete(View(buf, g), P, 0)
    requires UnchangedOutside(rem.buf, buf, g.base, g.base + g.size)
    requires first == FirstMoved(P, g.size - |P|) && buf' == Relabel(rem.buf, rem.g, first)
    ensures Fits(buf', rem.g) && UnchangedOutside(buf', buf, g.base, g.base + g.size)
    ensures var D := Delete(View(buf, g), P, 0);
      first <= rem.g.size == |D|
      && (forall i :: 0 <= i < rem.g.size ==> View(buf', rem.g)[i].uniqueId == D[i].uniqueId)
      && (forall i :: 0 <= i < first ==> View(buf', rem.g)[i] == View(buf, g)[i])
      && (forall i :: first <= i < rem.g.size ==> View(buf', rem.g)[i].groupId == i)
    ensures Labelled(buf, g) ==> Labelled(buf', rem.g)
  {
    FirstMovedFacts(View(buf, g), P, g.size);
  }

  /** Deleting positions from the first listed one on leaves the records before it in place. */
  lemma FirstMovedFacts(v: seq<EntityProxy>, P: seq<int>, size: int)
    requires Increasing(P) && Within(P, 0, size) && |v| == size
    ensures var first := FirstMoved(P, size - |P|);
      0 <= first <= size - |P|
      && forall i :: 0 <= i < first && i < |Delete(v, P, 0)| ==> Delete(v, P, 0)[i] == v[i]
  {
    var first := FirstMoved(P, size - |P|);
    if |P| > 0 {
      Spacing(P, 0, |P| - 1);
    }
    forall x | 0 <= x < first
      ensures x !in P
    {
      forall j | 0 <= j < |P|
        ensures P[j] != x
      {
        if j > 0 {
          assert P[0] < P[j];
        }
      }
    }
    DeleteConcat(v[..first], v[first..], P, 0);
    assert v == v[..first] + v[first..];
    DeleteKeep(v[..first], P, 0);
  }
}
