/**
 * The per-archetype cyclic group ComponentsGroup<T>
 * (src/ravine/ecs/ComponentsGroup.hpp).
 *
 * A group is the slice [base, base + size) of its storage's buffer. It is read
 * starting at the tip and wrapping: the records at physical offsets
 * [tip, size) come first (the run right of the tip), then those at [0, tip)
 * (the run left of the tip). The buffer is a seq<T>; memcpy and memmove become
 * sequence updates, with every source and destination range required to lie
 * inside the buffer.
 */
module Groups {
  import opened FastMath

  datatype Group = Group(base: int, size: int, tip: int)

  /** A buffer together with the group laid out in it. */
  datatype Placed<T> = Placed(buf: seq<T>, g: Group)

  predicate WellFormed(g: Group) {
    0 <= g.base && 0 <= g.tip <= g.size
  }

  predicate Fits<T>(buf: seq<T>, g: Group) {
    WellFormed(g) && g.base + g.size <= |buf|
  }

  /** The physical address (into the buffer) of the record at a logical position. */
  function PhysOf(g: Group, id: int): int {
    if id < g.size - g.tip then g.base + g.tip + id else g.base + id - (g.size - g.tip)
  }

  /** The group's records in logical order, starting at the tip. */
  function View<T>(buf: seq<T>, g: Group): (v: seq<T>)
    requires Fits(buf, g)
    ensures |v| == g.size
  {
    seq(g.size, i requires 0 <= i < g.size => buf[PhysOf(g, i)])
  }

  /** The logical order is the run right of the tip followed by the run left of it. */
  lemma ViewIsRuns<T>(buf: seq<T>, g: Group)
    requires Fits(buf, g)
    ensures View(buf, g) == buf[g.base + g.tip .. g.base + g.size] + buf[g.base .. g.base + g.tip]
  {
  }

  /** a and b differ at most inside [lo, hi). */
  ghost predicate UnchangedOutside<T>(a: seq<T>, b: seq<T>, lo: int, hi: int) {
    |a| == |b| && forall i :: 0 <= i < |a| && !(lo <= i < hi) ==> a[i] == b[i]
  }

  lemma UnchangedOutsideTrans<T>(a: seq<T>, b: seq<T>, c: seq<T>, lo: int, hi: int, lo': int, hi': int)
    requires UnchangedOutside(a, b, lo, hi) && UnchangedOutside(b, c, lo', hi')
    requires lo <= lo' && hi' <= hi
    ensures UnchangedOutside(a, c, lo, hi)
  {
  }

  /** Two changes inside [lo, hi), one after the other, change nothing outside it. */
  lemma UnchangedOutsideJoin<T>(a: seq<T>, b: seq<T>, c: seq<T>, lo: int, hi: int, lo1: int, hi1: int, lo2: int, hi2: int)
    requires UnchangedOutside(a, b, lo1, hi1) && UnchangedOutside(b, c, lo2, hi2)
    requires lo <= lo1 && lo <= lo2 && hi1 <= hi && hi2 <= hi
    ensures UnchangedOutside(a, c, lo, hi)
  {
  }

  // ---------------------------------------------------------------------------
  // memcpy / memmove

  /** memmove(buf + dst, buf + src, n): the n records at src, read before any is overwritten, now also at dst. */
  function Move<T>(buf: seq<T>, dst: int, src: int, n: int): (r: seq<T>)
    requires 0 <= n && 0 <= dst && dst + n <= |buf| && 0 <= src && src + n <= |buf|
    ensures |r| == |buf|
  {
    seq(|buf|, i requires 0 <= i < |buf| => if dst <= i < dst + n then buf[src + (i - dst)] else buf[i])
  }

  lemma MoveAt<T>(buf: seq<T>, dst: int, src: int, n: int, i: int)
    requires 0 <= n && 0 <= dst && dst + n <= |buf| && 0 <= src && src + n <= |buf| && 0 <= i < |buf|
    ensures Move(buf, dst, src, n)[i] == if dst <= i < dst + n then buf[src + (i - dst)] else buf[i]
  {
  }

  lemma MoveFrame<T>(buf: seq<T>, dst: int, src: int, n: int)
    requires 0 <= n && 0 <= dst && dst + n <= |buf| && 0 <= src && src + n <= |buf|
    ensures UnchangedOutside(Move(buf, dst, src, n), buf, dst, dst + n)
  {
    forall i | 0 <= i < |buf| && !(dst <= i < dst + n)
      ensures Move(buf, dst, src, n)[i] == buf[i]
    {
      MoveAt(buf, dst, src, n, i);
    }
  }

  /** memcpy(buf + dst, src, |src|) from an array outside the buffer. */
  function Write<T>(buf: seq<T>, dst: int, src: seq<T>): (r: seq<T>)
    requires 0 <= dst && dst + |src| <= |buf|
    ensures |r| == |buf|
  {
    seq(|buf|, i requires 0 <= i < |buf| => if dst <= i < dst + |src| then src[i - dst] else buf[i])
  }

  lemma WriteAt<T>(buf: seq<T>, dst: int, src: seq<T>, i: int)
    requires 0 <= dst && dst + |src| <= |buf| && 0 <= i < |buf|
    ensures Write(buf, dst, src)[i] == if dst <= i < dst + |src| then src[i - dst] else buf[i]
  {
  }

  lemma WriteFrame<T>(buf: seq<T>, dst: int, src: seq<T>)
    requires 0 <= dst && dst + |src| <= |buf|
    ensures UnchangedOutside(Write(buf, dst, src), buf, dst, dst + |src|)
    ensures Write(buf, dst, src)[dst .. dst + |src|] == src
  {
    forall i | 0 <= i < |buf| && !(dst <= i < dst + |src|)
      ensures Write(buf, dst, src)[i] == buf[i]
    {
      WriteAt(buf, dst, src, i);
    }
  }

  // ---------------------------------------------------------------------------
  // Addressing

  /** A new group is empty with its tip at 0. */
  function NewGroup(base: int): Group {
    Group(base, 0, 0)
  }

  lemma ViewAt<T>(buf: seq<T>, g: Group, id: int)
    requires Fits(buf, g) && 0 <= id < g.size
    ensures View(buf, g)[id] == buf[PhysOf(g, id)]
  {
  }

  /**
   * getComponent(id): base + (tip + id) % size. The modular address is the run
   * split of View: it is inside the slice and holds the id-th record in
   * logical order.
   */
  function GetComponent(g: Group, id: int): (r: int)
    requires WellFormed(g) && 0 <= id < g.size
    ensures g.base <= r < g.base + g.size
    ensures r == PhysOf(g, id)
  {
    var p := g.tip + id;
    ModOnce(p, g.size);
    g.base + p % g.size
  }

  /** Below twice the modulus, the remainder takes the modulus off at most once. */
  lemma ModOnce(p: int, n: int)
    requires 0 <= p < 2 * n
    ensures p % n == if p < n then p else p - n
  {
    if p < n {
      assert p == n * 0 + p;
    } else {
      assert p == n * 1 + (p - n);
    }
  }

  lemma GetComponentReadsView<T>(buf: seq<T>, g: Group, id: int)
    requires Fits(buf, g) && 0 <= id < g.size
    ensures buf[GetComponent(g, id)] == View(buf, g)[id]
  {
    ViewAt(buf, g, id);
  }

  /** getLastComponent(): the slot of the last record in logical order, the one just before the tip. */
  function GetLastComponent(g: Group): (r: int)
    requires WellFormed(g) && g.size >= 1
    ensures g.base <= r < g.base + g.size
    ensures r == (if g.tip == 0 then g.base + g.size - 1 else g.base + g.tip - 1)
  {
    GetComponent(g, g.size - 1)
  }

  lemma GetLastComponentReadsLast<T>(buf: seq<T>, g: Group)
    requires Fits(buf, g) && g.size >= 1
    ensures buf[GetLastComponent(g)] == View(buf, g)[g.size - 1]
  {
    GetComponentReadsView(buf, g, g.size - 1);
  }

  // ---------------------------------------------------------------------------
  // addComponent and shiftClockwise

  /** The records of a batch of count that go to the slice end: max(0, count - tip). */
  function RightCount(g: Group, count: int): int {
    if g.tip - count < 0 then count - g.tip else 0
  }

  /** The records of a batch of count that go just before the tip: min(tip, count). */
  function LeftCount(g: Group, count: int): int {
    if g.tip - count < 0 then g.tip else count
  }

  /**
   * addComponent(comps, count): the first RightCount records go to the slice
   * end, the rest fill the slots just before the tip; size grows by
   * RightCount. Nothing outside the slice and its RightCount following slots
   * changes.
   */
  function AddComponent<T>(buf: seq<T>, g: Group, comps: seq<T>): (r: Placed<T>)
    requires Fits(buf, g)
    requires g.base + g.size + RightCount(g, |comps|) <= |buf|
    ensures RightCount(g, |comps|) + LeftCount(g, |comps|) == |comps|
    ensures r.g == g.(size := g.size + RightCount(g, |comps|))
    ensures Fits(r.buf, r.g)
    ensures r.buf[g.base + g.size .. g.base + g.size + RightCount(g, |comps|)] == comps[..RightCount(g, |comps|)]
    ensures r.buf[g.base + g.tip - LeftCount(g, |comps|) .. g.base + g.tip] == comps[RightCount(g, |comps|)..]
    ensures UnchangedOutside(r.buf, buf, g.base, g.base + g.size + RightCount(g, |comps|))
    ensures forall i ::
              g.base <= i < g.base + g.size && !(g.base + g.tip - LeftCount(g, |comps|) <= i < g.base + g.tip)
              ==> r.buf[i] == buf[i]
  {
    var rightCount := RightCount(g, |comps|);
    var leftCount := LeftCount(g, |comps|);
    var buf1 := Write(buf, g.base + g.size, comps[..rightCount]);
    var buf2 := Write(buf1, g.base + g.tip - leftCount, comps[rightCount..]);
    AddFacts(buf, g, comps, buf1, buf2);
    Placed(buf2, g.(size := g.size + rightCount))
  }

  lemma AddFacts<T>(buf: seq<T>, g: Group, comps: seq<T>, buf1: seq<T>, buf2: seq<T>)
    requires Fits(buf, g)
    requires g.base + g.size + RightCount(g, |comps|) <= |buf|
    requires buf1 == Write(buf, g.base + g.size, comps[..RightCount(g, |comps|)])
    requires buf2 == Write(buf1, g.base + g.tip - LeftCount(g, |comps|), comps[RightCount(g, |comps|)..])
    ensures buf2[g.base + g.size .. g.base + g.size + RightCount(g, |comps|)] == comps[..RightCount(g, |comps|)]
    ensures buf2[g.base + g.tip - LeftCount(g, |comps|) .. g.base + g.tip] == comps[RightCount(g, |comps|)..]
    ensures UnchangedOutside(buf2, buf, g.base, g.base + g.size + RightCount(g, |comps|))
  {
    var rc, lc := RightCount(g, |comps|), LeftCount(g, |comps|);
    var dst := g.base + g.size;
    WriteFrame(buf, dst, comps[..rc]);
    WriteFrame(buf1, g.base + g.tip - lc, comps[rc..]);
    forall i | 0 <= i < rc
      ensures buf2[dst + i] == comps[..rc][i]
    {
      WriteAt(buf1, g.base + g.tip - lc, comps[rc..], dst + i);
    }
  }

  /**
   * shiftClockwise(count): the count is clamped to tip; the clamped number c of
   * records at the slice start are copied past the slice end, the rest of the
   * left run moves down by c, and size grows by c. Base and tip stay, the old
   * records keep their logical order, and c slots are free just before the tip.
   */
  function ShiftClockwise<T>(buf: seq<T>, g: Group, count: int): (r: (Placed<T>, int))
    requires Fits(buf, g) && count >= 0
    requires g.base + g.size + (if count < g.tip then count else g.tip) <= |buf|
    ensures r.1 == (if count < g.tip then count else g.tip)
    ensures r.0.g == g.(size := g.size + r.1)
    ensures Fits(r.0.buf, r.0.g)
    ensures View(r.0.buf, r.0.g)[..g.size] == View(buf, g)
    ensures UnchangedOutside(r.0.buf, buf, g.base, g.base + g.size + r.1)
  {
    var c := if count < g.tip then count else g.tip;
    var mask := if c - g.tip - 1 < 0 then 1 else 0;
    var shiftCount := (g.tip - c) * mask;
    var rollCount := c * mask;
    assert mask == 1 && shiftCount == g.tip - c && rollCount == c;
    var buf1 := Move(buf, g.base + g.size, g.base, rollCount);
    var buf2 := Move(buf1, g.base, g.base + rollCount, shiftCount);
    ShiftFacts(buf, g, c, buf1, buf2);
    (Placed(buf2, g.(size := g.size + c)), c)
  }

  lemma ShiftFacts<T>(buf: seq<T>, g: Group, c: int, buf1: seq<T>, buf2: seq<T>)
    requires Fits(buf, g) && 0 <= c <= g.tip && g.base + g.size + c <= |buf|
    requires buf1 == Move(buf, g.base + g.size, g.base, c)
    requires buf2 == Move(buf1, g.base, g.base + c, g.tip - c)
    ensures Fits(buf2, g.(size := g.size + c))
    ensures View(buf2, g.(size := g.size + c))[..g.size] == View(buf, g)
    ensures UnchangedOutside(buf2, buf, g.base, g.base + g.size + c)
  {
    var g' := g.(size := g.size + c);
    var v, v' := View(buf, g), View(buf2, g');
    forall i | 0 <= i < g.size
      ensures v'[i] == v[i]
    {
      var p := PhysOf(g', i);
      if p < g.base + g.tip - c {
        assert buf2[p] == buf1[p + c] == buf[p + c];
      }
    }
  }

  /**
   * shiftClockwise(count) followed by addComponent of count records, as the
   * storage does: the batch is appended to the logical sequence, size grows by
   * exactly count, base and tip stay, and nothing outside the slice and its
   * count following slots changes.
   */
  lemma ShiftThenAddAppends<T>(buf: seq<T>, g: Group, comps: seq<T>)
    requires Fits(buf, g) && g.base + g.size + |comps| <= |buf|
    ensures var s := ShiftClockwise(buf, g, |comps|).0;
      s.g.base + s.g.size + RightCount(s.g, |comps|) <= |buf|
    ensures var s := ShiftClockwise(buf, g, |comps|).0;
      var r := AddComponent(s.buf, s.g, comps);
      r.g == g.(size := g.size + |comps|) && View(r.buf, r.g) == View(buf, g) + comps
      && UnchangedOutside(r.buf, buf, g.base, g.base + g.size + |comps|)
  {
    var s := ShiftClockwise(buf, g, |comps|).0;
    var r := AddComponent(s.buf, s.g, comps);
    if |comps| <= g.tip {
      AppendIntoLeftRun(buf, g, comps, s, r);
    } else {
      AppendAcrossEnd(buf, g, comps, s, r);
    }
  }

  /** shiftClockwise(count) then addComponent(comps, count): the storage's way of adding a batch to one group. */
  function ShiftAndAdd<T>(buf: seq<T>, g: Group, comps: seq<T>): (r: Placed<T>)
    requires Fits(buf, g) && g.base + g.size + |comps| <= |buf|
    ensures r.g == g.(size := g.size + |comps|) && Fits(r.buf, r.g)
    ensures View(r.buf, r.g) == View(buf, g) + comps
    ensures UnchangedOutside(r.buf, buf, g.base, g.base + g.size + |comps|)
  {
    ShiftThenAddAppends(buf, g, comps);
    var s := ShiftClockwise(buf, g, |comps|).0;
    AddComponent(s.buf, s.g, comps)
  }

  /** The facts about the shifted group that both append cases rely on. */
  ghost predicate ShiftedBy<T>(buf: seq<T>, g: Group, c: int, s: Placed<T>) {
    Fits(buf, g) && 0 <= c && s.g == g.(size := g.size + c) && Fits(s.buf, s.g)
    && View(s.buf, s.g)[..g.size] == View(buf, g)
  }

  lemma AppendIntoLeftRun<T>(buf: seq<T>, g: Group, comps: seq<T>, s: Placed<T>, r: Placed<T>)
    requires |comps| <= g.tip && ShiftedBy(buf, g, |comps|, s)
    requires r.g == s.g && Fits(r.buf, r.g)
    requires r.buf[g.base + g.tip - |comps| .. g.base + g.tip] == comps
    requires forall i ::
               g.base <= i < s.g.base + s.g.size && !(g.base + g.tip - |comps| <= i < g.base + g.tip)
               ==> r.buf[i] == s.buf[i]
    ensures View(r.buf, r.g) == View(buf, g) + comps
  {
    var v, vs, v' := View(buf, g), View(s.buf, s.g), View(r.buf, r.g);
    var n := g.size;
    forall i | 0 <= i < n + |comps|
      ensures v'[i] == (v + comps)[i]
    {
      if i < n {
        assert vs[..n][i] == v[i];
      } else {
        var k := i - n;
        assert PhysOf(r.g, i) == g.base + g.tip - |comps| + k;
        assert r.buf[g.base + g.tip - |comps| .. g.base + g.tip][k] == comps[k];
      }
    }
  }

  lemma AppendAcrossEnd<T>(buf: seq<T>, g: Group, comps: seq<T>, s: Placed<T>, r: Placed<T>)
    requires |comps| > g.tip && ShiftedBy(buf, g, g.tip, s)
    requires r.g == s.g.(size := g.size + |comps|) && Fits(r.buf, r.g)
    requires r.buf[s.g.base + s.g.size .. g.base + g.size + |comps|] == comps[..|comps| - g.tip]
    requires r.buf[g.base .. g.base + g.tip] == comps[|comps| - g.tip..]
    requires forall i :: g.base + g.tip <= i < s.g.base + s.g.size ==> r.buf[i] == s.buf[i]
    ensures View(r.buf, r.g) == View(buf, g) + comps
  {
    var v, vs, v' := View(buf, g), View(s.buf, s.g), View(r.buf, r.g);
    var n := g.size;
    var rc := |comps| - g.tip;
    var top := g.base + n + g.tip;
    forall i | 0 <= i < n + |comps|
      ensures v'[i] == (v + comps)[i]
    {
      if i < n {
        assert vs[..n][i] == v[i];
      } else if i < n + rc {
        assert r.buf[top .. top + rc][i - n] == comps[..rc][i - n];
      } else {
        assert r.buf[g.base .. g.base + g.tip][i - n - rc] == comps[rc..][i - n - rc];
      }
    }
  }

  // ---------------------------------------------------------------------------
  // Rolls

  /**
   * rollClockwise(count): the group moves count slots up the buffer. The
   * min(size, count) records at the slice start are copied to the slots past
   * the slice end, the tip is moved back and wrapped, and base grows by count.
   * Size and the logical sequence are kept, and only the count slots past the
   * old slice end are written.
   */
  function RollClockwise<T>(buf: seq<T>, g: Group, count: int): (r: Placed<T>)
    requires Fits(buf, g) && count >= 0 && g.base + g.size + count <= |buf|
    ensures r.g.size == g.size && r.g.base == g.base + count
    ensures Fits(r.buf, r.g)
    ensures View(r.buf, r.g) == View(buf, g)
    ensures UnchangedOutside(r.buf, buf, g.base + g.size, g.base + g.size + count)
  {
    var toCopy := if g.size < count then g.size else count;
    var stride := if g.size < count then count else g.size;
    var buf' := Move(buf, g.base + stride, g.base, toCopy);
    var t := g.tip - toCopy;
    var tip := if t < 0 then t + g.size else t;
    var g' := Group(g.base + count, g.size, tip);
    RollClockwiseFacts(buf, g, count, buf', g');
    Placed(buf', g')
  }

  lemma RollClockwiseFacts<T>(buf: seq<T>, g: Group, count: int, buf': seq<T>, g': Group)
    requires Fits(buf, g) && count >= 0 && g.base + g.size + count <= |buf|
    requires var toCopy := if g.size < count then g.size else count;
      var stride := if g.size < count then count else g.size;
      var t := g.tip - toCopy;
      buf' == Move(buf, g.base + stride, g.base, toCopy)
      && g' == Group(g.base + count, g.size, if t < 0 then t + g.size else t)
    ensures Fits(buf', g') && View(buf', g') == View(buf, g)
    ensures UnchangedOutside(buf', buf, g.base + g.size, g.base + g.size + count)
  {
    var toCopy := if g.size < count then g.size else count;
    var stride := if g.size < count then count else g.size;
    var v, v' := View(buf, g), View(buf', g');
    forall i | 0 <= i < g.size
      ensures v'[i] == v[i]
    {
    }
  }

  /**
   * rollCounterClockwise(count) as written: with d = min(base, count) and
   * toCopy = min(d, size), the last toCopy records of the slice are copied to
   * base - d, the tip is advanced and wrapped, and base drops by toCopy. It
   * keeps the records in place only while d <= size: otherwise the copy lands
   * at base - d but the slice restarts at base - size, and an empty group
   * does not move at all.
   */
  function RollCounterClockwiseAsWritten<T>(buf: seq<T>, g: Group, count: int): (r: Placed<T>)
    requires Fits(buf, g) && count >= 0
    ensures var d := if g.base < count then g.base else count;
      r.g.size == g.size && r.g.base == g.base - (if d < g.size then d else g.size)
      && Fits(r.buf, r.g)
      && (d <= g.size ==> View(r.buf, r.g) == View(buf, g))
      && UnchangedOutside(r.buf, buf, g.base - d, g.base)
  {
    var dstOffset := if g.base < count then g.base else count;
    var toCopy := if dstOffset < g.size then dstOffset else g.size;
    var srcPos := g.size - toCopy;
    var buf' := Move(buf, g.base - dstOffset, g.base + srcPos, toCopy);
    var t := g.tip + toCopy;
    var tip := if g.size - t - 1 < 0 then t - g.size else t;
    var g' := Group(g.base - toCopy, g.size, tip);
    RollCounterClockwiseFacts(buf, g, dstOffset, buf', g.(tip := tip));
    Placed(buf', g')
  }

  /**
   * rollCounterClockwise(count) with the base lowered by the distance the
   * records were copied, d = min(base, count): the group moves d slots down
   * the buffer, keeping size and its logical sequence in every case, and only
   * the d slots just below the old base are written.
   */
  function RollCounterClockwise<T>(buf: seq<T>, g: Group, count: int): (r: Placed<T>)
    requires Fits(buf, g) && count >= 0
    ensures r.g.size == g.size && r.g.base == g.base - (if g.base < count then g.base else count)
    ensures Fits(r.buf, r.g)
    ensures View(r.buf, r.g) == View(buf, g)
    ensures UnchangedOutside(r.buf, buf, r.g.base, g.base)
  {
    var dstOffset := if g.base < count then g.base else count;
    var toCopy := if dstOffset < g.size then dstOffset else g.size;
    var srcPos := g.size - toCopy;
    var buf' := Move(buf, g.base - dstOffset, g.base + srcPos, toCopy);
    var t := g.tip + toCopy;
    var tip := if g.size - t - 1 < 0 then t - g.size else t;
    var g' := Group(g.base - dstOffset, g.size, tip);
    RollCounterClockwiseFacts(buf, g, dstOffset, buf', g.(tip := tip));
    Placed(buf', g')
  }

  /**
   * The copy both counter-clockwise rolls perform, for d = min(base, count):
   * with the base lowered by d the records keep their logical order; with the
   * base lowered by min(d, size) they do when d <= size.
   */
  lemma RollCounterClockwiseFacts<T>(buf: seq<T>, g: Group, d: int, buf': seq<T>, g1: Group)
    requires Fits(buf, g) && 0 <= d <= g.base
    requires var toCopy := if d < g.size then d else g.size;
      var t := g.tip + toCopy;
      buf' == Move(buf, g.base - d, g.base + g.size - toCopy, toCopy)
      && g1 == g.(tip := if g.size - t - 1 < 0 then t - g.size else t)
    ensures Fits(buf', g1.(base := g.base - d)) && View(buf', g1.(base := g.base - d)) == View(buf, g)
    ensures var toCopy := if d < g.size then d else g.size;
      Fits(buf', g1.(base := g.base - toCopy))
      && (d <= g.size ==> View(buf', g1.(base := g.base - toCopy)) == View(buf, g))
    ensures UnchangedOutside(buf', buf, g.base - d, g.base)
  {
    var g' := g1.(base := g.base - d);
    var v, v' := View(buf, g), View(buf', g');
    forall i | 0 <= i < g.size
      ensures v'[i] == v[i]
    {
    }
  }

  /**
   * A one-record group at base 2 rolled counter-clockwise by 2: the record is
   * copied to slot 0 but the slice restarts at slot 1, so the group now reads
   * the stale record there.
   */
  lemma RollCounterClockwiseAsWrittenLosesRecord()
    ensures var r := RollCounterClockwiseAsWritten([7, 8, 9], Group(2, 1, 0), 2);
      r.g == Group(1, 1, 0) && View(r.buf, r.g) == [8] && View([7, 8, 9], Group(2, 1, 0)) == [9]
    ensures var r := RollCounterClockwise([7, 8, 9], Group(2, 1, 0), 2);
      r.g == Group(0, 1, 0) && View(r.buf, r.g) == [9]
  {
    var r := RollCounterClockwiseAsWritten([7, 8, 9], Group(2, 1, 0), 2);
    assert r.buf == [9, 8, 9];
    var r' := RollCounterClockwise([7, 8, 9], Group(2, 1, 0), 2);
    assert r'.buf == [9, 8, 9];
  }

  /** An empty group is never moved by the roll as written, whatever the count. */
  lemma RollCounterClockwiseAsWrittenStrandsEmptyGroup<T>(buf: seq<T>, base: int, count: int)
    requires 0 < count && 0 < base <= |buf|
    ensures RollCounterClockwiseAsWritten(buf, NewGroup(base), count).g == NewGroup(base)
    ensures RollCounterClockwise(buf, NewGroup(base), count).g.base < base
  {
  }

  // ---------------------------------------------------------------------------
  // remComponent

  /** The records of s whose positions (off plus their index) are not listed in D, in order. */
  function Delete<T>(s: seq<T>, D: seq<int>, off: int): (r: seq<T>)
    ensures |r| <= |s|
  {
    if |s| == 0 then [] else (if off in D then [] else [s[0]]) + Delete(s[1..], D, off + 1)
  }

  lemma {:induction false} DeleteConcat<T>(a: seq<T>, b: seq<T>, D: seq<int>, off: int)
    ensures Delete(a + b, D, off) == Delete(a, D, off) + Delete(b, D, off + |a|)
    decreases |a|
  {
    if |a| == 0 {
      assert a + b == b;
    } else {
      assert (a + b)[1..] == a[1..] + b;
      DeleteConcat(a[1..], b, D, off + 1);
    }
  }

  lemma {:induction false} DeleteKeep<T>(a: seq<T>, D: seq<int>, off: int)
    requires forall x :: off <= x < off + |a| ==> x !in D
    ensures Delete(a, D, off) == a
    decreases |a|
  {
    if |a| > 0 {
      DeleteKeep(a[1..], D, off + 1);
    }
  }

  lemma {:induction false} DeleteDrop<T>(a: seq<T>, D: seq<int>, off: int)
    requires forall x :: off <= x < off + |a| ==> x in D
    ensures Delete(a, D, off) == []
    decreases |a|
  {
    if |a| > 0 {
      DeleteDrop(a[1..], D, off + 1);
    }
  }

  lemma {:induction false} DeleteSame<T>(a: seq<T>, D1: seq<int>, D2: seq<int>, off: int)
    requires forall x :: off <= x < off + |a| ==> (x in D1 <==> x in D2)
    ensures Delete(a, D1, off) == Delete(a, D2, off)
    decreases |a|
  {
    if |a| > 0 {
      DeleteSame(a[1..], D1, D2, off + 1);
    }
  }

  /** The loop counting the positions right of the tip: signMask(pos - rightSize) summed up. */
  function CountBelow(P: seq<int>, rs: int): int {
    if |P| == 0 then 0 else CountBelow(P[..|P| - 1], rs) + (if P[|P| - 1] - rs < 0 then 1 else 0)
  }

  /** For ascending positions, CountBelow splits them at rs: the first ones are below it, the rest are not. */
  lemma {:induction false} CountBelowSplits(P: seq<int>, rs: int)
    requires Increasing(P)
    ensures 0 <= CountBelow(P, rs) <= |P|
    ensures forall t :: 0 <= t < |P| ==> (t < CountBelow(P, rs) <==> P[t] < rs)
  {
    if |P| > 0 {
      var Q := P[..|P| - 1];
      assert Increasing(Q);
      CountBelowSplits(Q, rs);
      assert forall t :: 0 <= t < |Q| ==> P[t] == Q[t];
    }
  }

  /**
   * The inner loop of the first compression pass: how many positions, going
   * down from index c, form a run of consecutive values ending at P[c]
   * (consecutive values are those whose P[u] - u agree).
   */
  function RunDown(P: seq<int>, c: int, k: int): (r: int)
    requires Increasing(P) && 0 <= c < |P| && 1 <= k <= c + 1
    requires forall u :: c - k < u <= c ==> P[u] - u == P[c] - c
    ensures k <= r <= c + 1
    ensures forall u :: c - r < u <= c ==> P[u] - u == P[c] - c
    ensures c - r >= 0 ==> P[c - r] < P[c] - r
    decreases c + 1 - k
  {
    if c - k < 0 then k
    else if P[c] - k - 1 - P[c - k] >= 0 then k
    else
      assert P[c - k] < P[c - k + 1];
      RunDown(P, c, k + 1)
  }

  /**
   * The inner loop of the second compression pass: how many positions, going
   * up from index c, form a run of consecutive values starting at P[c].
   */
  function RunUp(P: seq<int>, c: int, k: int): (r: int)
    requires Increasing(P) && 0 <= c && 1 <= k && c + k <= |P|
    requires forall u :: c <= u < c + k ==> P[u] - u == P[c] - c
    ensures k <= r && c + r <= |P|
    ensures forall u :: c <= u < c + r ==> P[u] - u == P[c] - c
    ensures c + r < |P| ==> P[c + r] > P[c] + r
    decreases |P| - c - k
  {
    if c + k >= |P| then k
    else if P[c + k] - (P[c] + k + 1) >= 0 then k
    else
      assert P[c + k - 1] < P[c + k];
      RunUp(P, c, k + 1)
  }

  /**
   * Where the positions fall around the top run P[m..i] of the list P[..i]:
   * below the run only the shorter list P[..m] lists anything, the run lists
   * every value it spans, and nothing above it is listed.
   */
  lemma TopRunMembership(P: seq<int>, m: int, i: int)
    requires Increasing(P) && 0 <= m < i <= |P|
    requires forall u :: m <= u < i ==> P[u] - u == P[i - 1] - (i - 1)
    requires m >= 1 ==> P[m - 1] < P[m] - 1
    ensures forall x :: x < P[m] ==> (x in P[..i] <==> x in P[..m])
    ensures forall x :: P[m] <= x <= P[i - 1] ==> x in P[..i]
    ensures forall x :: P[i - 1] < x ==> x !in P[..i]
  {
    assert P[m] - m == P[i - 1] - (i - 1);
    forall t | 0 <= t < m
      ensures P[t] < P[m] - 1
    {
      if t < m - 1 {
        assert P[t] < P[m - 1];
      }
    }
    forall t | m <= t < i
      ensures P[m] <= P[t]
    {
      assert P[t] - t == P[m] - m;
    }
    forall t | 0 <= t < i - 1
      ensures P[t] < P[i - 1]
    {
    }
    forall x | x < P[m]
      ensures x in P[..i] <==> x in P[..m]
    {
      if x in P[..i] {
        var t :| 0 <= t < i && P[..i][t] == x;
        assert P[..m][t] == x;
      }
      if x in P[..m] {
        var t :| 0 <= t < m && P[..m][t] == x;
        assert P[..i][t] == x;
      }
    }
    forall x | P[i - 1] < x
      ensures x !in P[..i]
    {
      forall t | 0 <= t < i
        ensures P[..i][t] != x
      {
      }
    }
    forall x | P[m] <= x <= P[i - 1]
      ensures x in P[..i]
    {
      var t := m + (x - P[m]);
      assert P[t] - t == P[m] - m;
      assert P[..i][t] == x;
    }
  }

  /**
   * The first compression pass (ComponentsGroup.hpp:147-176) on the run right
   * of the tip, X = slots [tip, size) of the slice, where all its moves fall.
   * The runs of positions P[..i] are taken from the top down; each moves
   * everything above it down by its length. Afterwards the first |X| - i
   * slots hold X without the listed positions.
   */
  function CompressRight<T>(X: seq<T>, P: seq<int>, i: int): (r: seq<T>)
    requires Increasing(P) && 0 <= i <= |P|
    requires forall t :: 0 <= t < i ==> 0 <= P[t] < |X|
    ensures |r| == |X| && i <= |X|
    ensures r[..|X| - i] == Delete(X, P[..i], 0)
    decreases i
  {
    if i == 0 then
      DeleteKeep(X, P[..0], 0);
      X
    else
      var m := RunStart(P, i);
      var X1 := Move(X, P[m], P[i - 1] + 1, |X| - (P[i - 1] + 1));
      var r := CompressRight(X1, P, m);
      CompressRightStep(X, P, i, m, X1, r);
      r
  }

  /** Where the run of consecutive positions ending at P[i - 1] starts. */
  function RunStart(P: seq<int>, i: int): (m: int)
    requires Increasing(P) && 0 < i <= |P|
    ensures 0 <= m < i
    ensures forall u :: m <= u < i ==> P[u] - u == P[i - 1] - (i - 1)
    ensures m >= 1 ==> P[m - 1] < P[m] - 1
  {
    var k := RunDown(P, i - 1, 1);
    assert P[i - k] - (i - k) == P[i - 1] - (i - 1);
    i - k
  }

  /** One step of the first pass: the run P[m..i] is squeezed out of X. */
  lemma CompressRightStep<T>(X: seq<T>, P: seq<int>, i: int, m: int, X1: seq<T>, r: seq<T>)
    requires Increasing(P) && 0 <= m < i <= |P|
    requires 0 <= P[m] && P[i - 1] < |X|
    requires forall u :: m <= u < i ==> P[u] - u == P[i - 1] - (i - 1)
    requires m >= 1 ==> P[m - 1] < P[m] - 1
    requires X1 == Move(X, P[m], P[i - 1] + 1, |X| - (P[i - 1] + 1))
    requires |r| == |X1| && m <= |X1| && r[..|X1| - m] == Delete(X1, P[..m], 0)
    ensures i <= |X| && r[..|X| - i] == Delete(X, P[..i], 0)
  {
    var dst, src := P[m], P[i - 1] + 1;
    var D, D1 := P[..i], P[..m];
    assert src - dst == i - m && dst <= src - 1
      && (forall x :: 0 <= x < dst ==> (x in D <==> x in D1))
      && (forall x :: dst <= x <= src - 1 ==> x in D)
      && (forall x :: src - 1 < x < |X| ==> x !in D)
      && (forall x :: dst <= x < |X1| ==> x !in D1) by {
      assert P[m] - m == P[i - 1] - (i - 1);
      TopRunMembership(P, m, i);
      UnlistedFrom(P, m);
    }
    SqueezeRun(X, X1, D, D1, dst, src, r, m, i);
  }

  /**
   * One step of the first pass over the lists of positions: D lists the run
   * [dst, src) and nothing above it, D1 agrees with D below the run, and the
   * records from src on are moved down to dst.
   */
  lemma SqueezeRun<T>(X: seq<T>, X1: seq<T>, D: seq<int>, D1: seq<int>, dst: int, src: int, r: seq<T>, m: int, i: int)
    requires 0 <= dst < src <= |X| && 0 <= m <= i && src - dst == i - m
    requires forall x :: 0 <= x < dst ==> (x in D <==> x in D1)
    requires forall x :: dst <= x <= src - 1 ==> x in D
    requires forall x :: src - 1 < x < |X| ==> x !in D
    requires forall x :: dst <= x < |X1| ==> x !in D1
    requires X1 == Move(X, dst, src, |X| - src)
    requires |r| == |X1| && m <= |X1| && r[..|X1| - m] == Delete(X1, D1, 0)
    ensures i <= |X| && r[..|X| - i] == Delete(X, D, 0)
  {
    assert |X1| == |X| && X1[..dst] == X[..dst] && X1[dst..][..|X| - src] == X[src..] by {
      MoveDownShape(X, dst, src);
    }
    var left := Delete(X[..dst], D1, 0);
    assert Delete(X, D, 0) == left + X[src..]
      && Delete(X1, D1, 0) == Delete(X1[..dst], D1, 0) + X1[dst..] by {
      TopRunFacts(X, X1, D, D1, dst, src - 1);
    }
    assert r[..|r| - m] == left + X1[dst..];
    Shrunk(X1[dst..], X[src..], r, left, m, i);
  }

  /**
   * The deletions of one step of the first pass, before and after the move:
   * D lists the run [a, p] and nothing above it, and D1 agrees with D below
   * the run and lists nothing from a on.
   */
  lemma TopRunFacts<T>(X: seq<T>, X1: seq<T>, D: seq<int>, D1: seq<int>, a: int, p: int)
    requires 0 <= a <= p < |X| && |X1| == |X|
    requires forall x :: 0 <= x < a ==> (x in D <==> x in D1)
    requires forall x :: a <= x <= p ==> x in D
    requires forall x :: p < x < |X| ==> x !in D
    requires forall x :: a <= x < |X1| ==> x !in D1
    ensures Delete(X, D, 0) == Delete(X[..a], D1, 0) + X[p + 1..]
    ensures Delete(X1, D1, 0) == Delete(X1[..a], D1, 0) + X1[a..]
  {
    DeleteAboveRun(X, D, D1, a, p);
    DeleteAboveMoved(X1, D1, a);
  }

  /** No value from P[m] on is listed before index m of an ascending list. */
  lemma UnlistedFrom(P: seq<int>, m: int)
    requires Increasing(P) && 0 <= m < |P|
    ensures forall x :: P[m] <= x ==> x !in P[..m]
  {
    forall x | P[m] <= x
      ensures x !in P[..m]
    {
      forall t | 0 <= t < m
        ensures P[..m][t] != x
      {
        assert P[t] < P[m];
      }
    }
  }

  /** Deleting from X around the run [a, p]: what is left below it, then all above it. */
  lemma DeleteAboveRun<T>(X: seq<T>, D: seq<int>, D1: seq<int>, a: int, p: int)
    requires 0 <= a <= p < |X|
    requires forall x :: 0 <= x < a ==> (x in D <==> x in D1)
    requires forall x :: a <= x <= p ==> x in D
    requires forall x :: p < x < |X| ==> x !in D
    ensures Delete(X, D, 0) == Delete(X[..a], D1, 0) + X[p + 1..]
  {
    DeleteSame(X[..a], D, D1, 0);
    DeleteDrop(X[a .. p + 1], D, a);
    DeleteKeep(X[p + 1..], D, p + 1);
    DeleteSplitThree(X, D, D1, a, p);
  }

  /** Deleting from X cut at a and p + 1, given what each piece keeps. */
  lemma DeleteSplitThree<T>(X: seq<T>, D: seq<int>, D1: seq<int>, a: int, p: int)
    requires 0 <= a <= p < |X|
    requires Delete(X[..a], D, 0) == Delete(X[..a], D1, 0)
    requires Delete(X[a .. p + 1], D, a) == []
    requires Delete(X[p + 1..], D, p + 1) == X[p + 1..]
    ensures Delete(X, D, 0) == Delete(X[..a], D1, 0) + X[p + 1..]
  {
    var head := X[..p + 1];
    assert Delete(X, D, 0) == Delete(head, D, 0) + X[p + 1..] by {
      DeleteSplit(X, p + 1, D, 0);
    }
    assert Delete(head, D, 0) == Delete(X[..a], D1, 0) by {
      DeleteSplit(head, a, D, 0);
      assert head[..a] == X[..a] && head[a..] == X[a .. p + 1];
    }
  }

  /** Deleting from X1 when nothing from a on is listed. */
  lemma DeleteAboveMoved<T>(X1: seq<T>, D1: seq<int>, a: int)
    requires 0 <= a <= |X1|
    requires forall x :: a <= x < |X1| ==> x !in D1
    ensures Delete(X1, D1, 0) == Delete(X1[..a], D1, 0) + X1[a..]
  {
    DeleteSplit(X1, a, D1, 0);
    DeleteKeep(X1[a..], D1, a);
  }

  /**
   * The length bookkeeping of one step of the first pass: when r starts with
   * left + moved, and moved starts with tail, then r starts with left + tail.
   */
  lemma Shrunk<T>(moved: seq<T>, tail: seq<T>, r: seq<T>, left: seq<T>, m: int, i: int)
    requires |tail| <= |moved| && moved[..|tail|] == tail
    requires 0 <= m <= i && m <= |r| && r[..|r| - m] == left + moved
    requires |moved| - |tail| == i - m
    ensures i <= |r| && r[..|r| - i] == left + tail
  {
    assert r[..|r| - i] == r[..|r| - m][..|left| + |tail|];
  }

  /** Moving the records from src on down to dst: the prefix stays, the tail lands at dst. */
  lemma MoveDownShape<T>(X: seq<T>, dst: int, src: int)
    requires 0 <= dst <= src <= |X|
    ensures var X1 := Move(X, dst, src, |X| - src);
      |X1| == |X| && X1[..dst] == X[..dst] && |X1[dst..]| >= |X| - src && X1[dst..][..|X| - src] == X[src..]
  {
  }

  /** Moving the first q records up by k: they land at k, and what lies from m = q + k on stays. */
  lemma MoveUpShape<T>(Y: seq<T>, k: int, q: int, m: int)
    requires 0 <= k && 0 <= q && m == q + k && m <= |Y|
    ensures var Y1 := Move(Y, k, 0, q);
      |Y1| == |Y| && Y1[..m][k..] == Y[..q] && Y1[m..] == Y[m..]
  {
  }

  lemma DeleteSplit<T>(s: seq<T>, m: int, D: seq<int>, off: int)
    requires 0 <= m <= |s|
    ensures Delete(s, D, off) == Delete(s[..m], D, off) + Delete(s[m..], D, off + m)
  {
    assert s == s[..m] + s[m..];
    DeleteConcat(s[..m], s[m..], D, off);
  }

  lemma DeleteSplit3<T>(s: seq<T>, m: int, n: int, D: seq<int>, off: int)
    requires 0 <= m <= n <= |s|
    ensures Delete(s, D, off) == Delete(s[..m], D, off) + Delete(s[m..n], D, off + m) + Delete(s[n..], D, off + n)
  {
    DeleteSplit(s, n, D, off);
    DeleteSplit(s[..n], m, D, off);
    assert s[..n][..m] == s[..m] && s[..n][m..] == s[m..n];
  }

  /** Deleting one position drops exactly that record. */
  lemma DeleteOne<T>(s: seq<T>, p: int)
    requires 0 <= p < |s|
    ensures Delete(s, [p], 0) == s[..p] + s[p + 1..]
  {
    DeleteOneParts(s, p, [p]);
  }

  lemma DeleteOneParts<T>(s: seq<T>, p: int, D: seq<int>)
    requires 0 <= p < |s| && D == [p]
    ensures Delete(s, D, 0) == s[..p] + [] + s[p + 1..]
  {
    var one := s[p..p + 1];
    DeleteSplit3(s, p, p + 1, D, 0);
    DeleteKeep(s[..p], D, 0);
    DeleteKeep(s[p + 1..], D, 0 + (p + 1));
    assert |one[1..]| == 0 && 0 + p in D;
    assert Delete(one, D, 0 + p) == [];
  }





  /**
   * Where the positions fall around the bottom run P[j..n] of the list P[j..]:
   * nothing below the run is listed, the run lists every value it spans, and
   * above it only the shorter list P[n..] lists anything.
   */
  lemma BottomRunMembership(P: seq<int>, j: int, n: int)
    requires Increasing(P) && 0 <= j < n <= |P|
    requires forall u :: j <= u < n ==> P[u] - u == P[j] - j
    requires n < |P| ==> P[n] > P[n - 1] + 1
    ensures forall x :: x < P[j] ==> x !in P[j..]
    ensures forall x :: P[j] <= x <= P[n - 1] ==> x in P[j..]
    ensures forall x :: P[n - 1] < x ==> (x in P[j..] <==> x in P[n..])
  {
    assert P[n - 1] - (n - 1) == P[j] - j;
    forall t | n <= t < |P|
      ensures P[n - 1] + 1 < P[t]
    {
      if t > n {
        assert P[n] < P[t];
      }
    }
    forall t | j <= t < n
      ensures P[t] <= P[n - 1]
    {
      assert P[t] - t == P[j] - j;
    }
    forall t | j < t < |P|
      ensures P[j] < P[t]
    {
    }
    forall x | x < P[j]
      ensures x !in P[j..]
    {
      forall t | 0 <= t < |P| - j
        ensures P[j..][t] != x
      {
      }
    }
    forall x | P[j] <= x <= P[n - 1]
      ensures x in P[j..]
    {
      var t := j + (x - P[j]);
      assert P[t] - t == P[j] - j;
      assert P[j..][t - j] == x;
    }
    forall x | P[n - 1] < x
      ensures x in P[j..] <==> x in P[n..]
    {
      if x in P[j..] {
        var t :| 0 <= t < |P| - j && P[j..][t] == x;
        assert P[n..][t - (n - j)] == x;
      }
      if x in P[n..] {
        var t :| 0 <= t < |P| - n && P[n..][t] == x;
        assert P[j..][t + (n - j)] == x;
      }
    }
  }

  /**
   * The second compression pass (ComponentsGroup.hpp:180-204) on the run left
   * of the tip, Y = slots [0, tip) of the slice, whose slot y holds logical
   * position rs + y. The runs of positions P[j..] are taken from the bottom up;
   * each moves everything below it up by its length. Afterwards the slots
   * from |P| - j on hold Y without the listed positions.
   */
  function CompressLeft<T>(Y: seq<T>, P: seq<int>, j: int, rs: int): (r: seq<T>)
    requires Increasing(P) && 0 <= j <= |P|
    requires forall t :: j <= t < |P| ==> rs <= P[t] < rs + |Y|
    ensures |r| == |Y| && |P| - j <= |Y|
    ensures r[|P| - j..] == Delete(Y, P[j..], rs)
    decreases |P| - j
  {
    if j == |P| then
      DeleteKeep(Y, P[j..], rs);
      Y
    else
      var k := RunUp(P, j, 1);
      var n := j + k;
      assert P[n - 1] - (n - 1) == P[j] - j;
      var Y1 := Move(Y, k, 0, P[j] - rs);
      MoveUpShape(Y, k, P[j] - rs, P[n - 1] + 1 - rs);
      var r := CompressLeft(Y1, P, n, rs);
      CompressLeftStep(Y, P, j, n, rs, Y1, r);
      r
  }

  /** One step of the second pass: the run P[j..n] is squeezed out of Y. */
  lemma CompressLeftStep<T>(Y: seq<T>, P: seq<int>, j: int, n: int, rs: int, Y1: seq<T>, r: seq<T>)
    requires Increasing(P) && 0 <= j < n <= |P|
    requires rs <= P[j] && P[n - 1] < rs + |Y|
    requires forall u :: j <= u < n ==> P[u] - u == P[j] - j
    requires n < |P| ==> P[n] > P[n - 1] + 1
    requires |Y1| == |Y| && Y1[..P[n - 1] + 1 - rs][n - j..] == Y[..P[j] - rs] && Y1[P[n - 1] + 1 - rs..] == Y[P[n - 1] + 1 - rs..]
    requires |r| == |Y1| && |P| - n <= |Y1| && r[|P| - n..] == Delete(Y1, P[n..], rs)
    ensures |P| - j <= |Y| && r[|P| - j..] == Delete(Y, P[j..], rs)
  {
    var q, m := P[j] - rs, P[n - 1] + 1 - rs;
    var D, D2 := P[j..], P[n..];
    assert m == q + (n - j)
      && (forall x :: rs <= x < rs + q ==> x !in D)
      && (forall x :: rs + q <= x < rs + m ==> x in D)
      && (forall x :: rs + m <= x < rs + |Y| ==> (x in D <==> x in D2))
      && (forall x :: rs <= x < rs + m ==> x !in D2) by {
      assert P[n - 1] - (n - 1) == P[j] - j;
      BottomRunMembership(P, j, n);
      UnlistedBefore(P, n);
    }
    GrowRun(Y, Y1, D, D2, rs, q, m, r, |P| - n, n - j);
  }

  /**
   * One step of the second pass over the lists of positions: D lists the run
   * [rs + q, rs + m) and nothing below it, D2 agrees with D above the run and
   * lists nothing below its end, and the records below the run are moved up
   * against its end.
   */
  lemma GrowRun<T>(Y: seq<T>, Y1: seq<T>, D: seq<int>, D2: seq<int>, rs: int, q: int, m: int, r: seq<T>, s: int, k: int)
    requires 0 <= q <= m <= |Y| && m == q + k && |Y1| == |Y|
    requires forall x :: rs <= x < rs + q ==> x !in D
    requires forall x :: rs + q <= x < rs + m ==> x in D
    requires forall x :: rs + m <= x < rs + |Y| ==> (x in D <==> x in D2)
    requires forall x :: rs <= x < rs + m ==> x !in D2
    requires Y1[..m][k..] == Y[..q] && Y1[m..] == Y[m..]
    requires 0 <= s <= |r| && r[s..] == Delete(Y1, D2, rs)
    ensures s + k <= |r| && r[s + k..] == Delete(Y, D, rs)
  {
    var right := Delete(Y[m..], D2, rs + m);
    assert Delete(Y, D, rs) == Y[..q] + right && Delete(Y1, D2, rs) == Y1[..m] + right by {
      BottomRunFacts(Y, Y1, D, D2, rs, q, m);
    }
    Grown(r, Y1[..m], Y[..q], right, s, k, s + k);
  }

  /**
   * The deletions of one step of the second pass, before and after the move:
   * D lists the run [rs + q, rs + m) and nothing below it, and D2 agrees with
   * D above the run and lists nothing below its end.
   */
  lemma BottomRunFacts<T>(Y: seq<T>, Y1: seq<T>, D: seq<int>, D2: seq<int>, rs: int, q: int, m: int)
    requires 0 <= q <= m <= |Y| && |Y1| == |Y|
    requires forall x :: rs <= x < rs + q ==> x !in D
    requires forall x :: rs + q <= x < rs + m ==> x in D
    requires forall x :: rs + m <= x < rs + |Y| ==> (x in D <==> x in D2)
    requires forall x :: rs <= x < rs + m ==> x !in D2
    ensures Delete(Y, D, rs) == Y[..q] + Delete(Y[m..], D2, rs + m)
    ensures Delete(Y1, D2, rs) == Y1[..m] + Delete(Y1[m..], D2, rs + m)
  {
    DeleteBelowRun(Y, D, D2, rs, q, m, rs + m);
    DeleteBelowMoved(Y1, D2, rs, m, rs + m);
  }

  /** No value up to P[n - 1] is listed from index n on in an ascending list. */
  lemma UnlistedBefore(P: seq<int>, n: int)
    requires Increasing(P) && 0 < n <= |P|
    ensures forall x :: x <= P[n - 1] ==> x !in P[n..]
  {
    forall x | x <= P[n - 1]
      ensures x !in P[n..]
    {
      forall t | 0 <= t < |P| - n
        ensures P[n..][t] != x
      {
        assert P[n - 1] < P[n + t];
      }
    }
  }

  /** Deleting from Y around the run [rs + q, hi): all below it, then what is left above it. */
  lemma DeleteBelowRun<T>(Y: seq<T>, D: seq<int>, D2: seq<int>, rs: int, q: int, m: int, hi: int)
    requires 0 <= q <= m <= |Y| && hi == rs + m
    requires forall x :: rs <= x < rs + q ==> x !in D
    requires forall x :: rs + q <= x < hi ==> x in D
    requires forall x :: hi <= x < rs + |Y| ==> (x in D <==> x in D2)
    ensures Delete(Y, D, rs) == Y[..q] + Delete(Y[m..], D2, hi)
  {
    DeleteKeep(Y[..q], D, rs);
    DeleteDrop(Y[q .. m], D, rs + q);
    DeleteSame(Y[m..], D, D2, rs + m);
    DeleteSplitBelow(Y, D, D2, rs, q, m);
  }

  /** Deleting from Y cut at q and m, given what each piece keeps. */
  lemma DeleteSplitBelow<T>(Y: seq<T>, D: seq<int>, D2: seq<int>, rs: int, q: int, m: int)
    requires 0 <= q <= m <= |Y|
    requires Delete(Y[..q], D, rs) == Y[..q]
    requires Delete(Y[q .. m], D, rs + q) == []
    requires Delete(Y[m..], D, rs + m) == Delete(Y[m..], D2, rs + m)
    ensures Delete(Y, D, rs) == Y[..q] + Delete(Y[m..], D2, rs + m)
  {
    var head := Y[..m];
    assert Delete(Y, D, rs) == Delete(head, D, rs) + Delete(Y[m..], D, rs + m) by {
      DeleteSplit(Y, m, D, rs);
    }
    assert Delete(head, D, rs) == Y[..q] by {
      DeleteSplit(head, q, D, rs);
      assert head[..q] == Y[..q] && head[q..] == Y[q .. m];
    }
  }

  /** Deleting from Y1 when nothing below hi = rs + m is listed. */
  lemma DeleteBelowMoved<T>(Y1: seq<T>, D2: seq<int>, rs: int, m: int, hi: int)
    requires 0 <= m <= |Y1| && hi == rs + m
    requires forall x :: rs <= x < hi ==> x !in D2
    ensures Delete(Y1, D2, rs) == Y1[..m] + Delete(Y1[m..], D2, hi)
  {
    DeleteSplit(Y1, m, D2, rs);
    DeleteKeep(Y1[..m], D2, rs);
  }

  /**
   * The length bookkeeping of one step of the second pass: when r from s on is
   * head + right, and head from k on is kept, then r from s + k on is kept + right.
   */
  lemma Grown<T>(r: seq<T>, head: seq<T>, kept: seq<T>, right: seq<T>, s: int, k: int, s2: int)
    requires 0 <= s <= |r| && 0 <= k <= |head| && head[k..] == kept && s2 == s + k
    requires r[s..] == head + right
    ensures s2 <= |r| && r[s2..] == kept + right
  {
    assert r[s2..] == r[s..][k..];
  }

  /** For positions split at L by the bound rs, the full list and its halves agree on each side of rs. */
  lemma SplitMembership(P: seq<int>, L: int, rs: int)
    requires 0 <= L <= |P|
    requires forall t :: 0 <= t < |P| ==> (t < L <==> P[t] < rs)
    ensures forall x :: x < rs ==> (x in P <==> x in P[..L])
    ensures forall x :: rs <= x ==> (x in P <==> x in P[L..])
  {
    forall x | x < rs
      ensures x in P <==> x in P[..L]
    {
      if x in P {
        var t :| 0 <= t < |P| && P[t] == x;
        assert P[..L][t] == x;
      }
      if x in P[..L] {
        var t :| 0 <= t < L && P[..L][t] == x;
        assert P[t] == x;
      }
    }
    forall x | rs <= x
      ensures x in P <==> x in P[L..]
    {
      if x in P {
        var t :| 0 <= t < |P| && P[t] == x;
        assert P[L..][t - L] == x;
      }
      if x in P[L..] {
        var t :| 0 <= t < |P| - L && P[L..][t] == x;
        assert P[t + L] == x;
      }
    }
  }

  /**
   * Both compression passes of remComponent (ComponentsGroup.hpp:132-209, up
   * to the final roll): P lists ascending logical positions; the first L of
   * them lie right of the tip and are squeezed out by the first pass, the
   * other R = |P| - L by the second, which leaves R free slots at the front
   * of the slice, so the group restarts R slots later with R fewer before
   * its tip. The result is the group and L.
   */
  function Compress<T>(buf: seq<T>, g: Group, P: seq<int>): (r: (Placed<T>, int))
    requires Fits(buf, g) && Increasing(P) && Within(P, 0, g.size)
    ensures 0 <= r.1 <= |P| && forall t :: 0 <= t < |P| ==> (t < r.1 <==> P[t] < g.size - g.tip)
    ensures r.0.g == Group(g.base + (|P| - r.1), g.size - |P|, g.tip - (|P| - r.1))
    ensures Fits(r.0.buf, r.0.g)
    ensures View(r.0.buf, r.0.g) == Delete(View(buf, g), P, 0)
    ensures UnchangedOutside(r.0.buf, buf, g.base, g.base + g.size)
  {
    var L := CountBelow(P, g.size - g.tip);
    CountBelowSplits(P, g.size - g.tip);
    (CompressSplit(buf, g, P, L), L)
  }

  /** Both passes, given the number L of removals right of the tip. */
  function CompressSplit<T>(buf: seq<T>, g: Group, P: seq<int>, L: int): (r: Placed<T>)
    requires Fits(buf, g) && Increasing(P) && Within(P, 0, g.size)
    requires 0 <= L <= |P| && forall t :: 0 <= t < |P| ==> (t < L <==> P[t] < g.size - g.tip)
    ensures r.g == Group(g.base + (|P| - L), g.size - |P|, g.tip - (|P| - L))
    ensures Fits(r.buf, r.g)
    ensures View(r.buf, r.g) == Delete(View(buf, g), P, 0)
    ensures UnchangedOutside(r.buf, buf, g.base, g.base + g.size)
  {
    var X := buf[g.base + g.tip .. g.base + g.size];
    var Y := buf[g.base .. g.base + g.tip];
    var X' := CompressRight(X, P, L);
    var Y' := CompressLeft(Y, P, L, g.size - g.tip);
    var buf1 := buf[..g.base] + Y' + X' + buf[g.base + g.size..];
    CompressFacts(buf, g, P, L, X, Y, X', Y', buf1);
    Placed(buf1, Group(g.base + (|P| - L), g.size - |P|, g.tip - (|P| - L)))
  }

  /** Compress's contract, from the two passes' contracts and the splice. */
  lemma CompressFacts<T>(buf: seq<T>, g: Group, P: seq<int>, L: int, X: seq<T>, Y: seq<T>, X': seq<T>, Y': seq<T>, buf1: seq<T>)
    requires Fits(buf, g) && 0 <= L <= |P|
    requires forall t :: 0 <= t < |P| ==> (t < L <==> P[t] < g.size - g.tip)
    requires X == buf[g.base + g.tip .. g.base + g.size] && Y == buf[g.base .. g.base + g.tip]
    requires |X'| == |X| && L <= |X| && X'[..|X| - L] == Delete(X, P[..L], 0)
    requires |Y'| == |Y| && |P| - L <= |Y| && Y'[|P| - L..] == Delete(Y, P[L..], g.size - g.tip)
    requires buf1 == buf[..g.base] + Y' + X' + buf[g.base + g.size..]
    ensures var g1 := Group(g.base + (|P| - L), g.size - |P|, g.tip - (|P| - L));
      Fits(buf1, g1) && View(buf1, g1) == Delete(View(buf, g), P, 0)
    ensures UnchangedOutside(buf1, buf, g.base, g.base + g.size)
  {
    var R, n := |P| - L, |X| - L;
    SpliceSlices(buf, g.base, g.base + g.size, Y', X', buf1, R, n);
    CompressView(buf, g, P, L, X, Y, X', Y', buf1, R, n);
  }

  /** The compacted group's view, from where its two runs sit in the new buffer. */
  lemma CompressView<T>(buf: seq<T>, g: Group, P: seq<int>, L: int, X: seq<T>, Y: seq<T>, X': seq<T>, Y': seq<T>, buf1: seq<T>, R: int, n: int)
    requires Fits(buf, g) && 0 <= L <= |P|
    requires forall t :: 0 <= t < |P| ==> (t < L <==> P[t] < g.size - g.tip)
    requires X == buf[g.base + g.tip .. g.base + g.size] && Y == buf[g.base .. g.base + g.tip]
    requires R == |P| - L && n == |X| - L
    requires |X'| == |X| && 0 <= n && X'[..n] == Delete(X, P[..L], 0)
    requires |Y'| == |Y| && R <= |Y| && Y'[R..] == Delete(Y, P[L..], g.size - g.tip)
    requires |buf1| == |buf|
    requires buf1[g.base + R .. g.base + |Y'|] == Y'[R..]
    requires buf1[g.base + |Y'| .. g.base + |Y'| + n] == X'[..n]
    ensures var g1 := Group(g.base + (|P| - L), g.size - |P|, g.tip - (|P| - L));
      Fits(buf1, g1) && View(buf1, g1) == Delete(View(buf, g), P, 0)
  {
    CompressedRuns(buf, g, P, L, X', Y', buf1, R, n);
    DeleteRuns(buf, g, P, L, X'[..n], Y'[R..]);
  }

  /** Where the passes leave the runs, the compacted group reads X'[..n] then Y'[R..]. */
  lemma CompressedRuns<T>(buf: seq<T>, g: Group, P: seq<int>, L: int, X': seq<T>, Y': seq<T>, buf1: seq<T>, R: int, n: int)
    requires Fits(buf, g) && 0 <= L <= |P|
    requires R == |P| - L && n == g.size - g.tip - L && 0 <= n <= |X'| && 0 <= R <= |Y'| == g.tip
    requires |buf1| == |buf|
    requires buf1[g.base + R .. g.base + |Y'|] == Y'[R..]
    requires buf1[g.base + |Y'| .. g.base + |Y'| + n] == X'[..n]
    ensures var g1 := Group(g.base + (|P| - L), g.size - |P|, g.tip - (|P| - L));
      Fits(buf1, g1) && View(buf1, g1) == X'[..n] + Y'[R..]
  {
    var g1 := Group(g.base + (|P| - L), g.size - |P|, g.tip - (|P| - L));
    ViewOfRuns(buf1, g1, g.base, Y', X', R, n);
  }

  /** Deleting from the view is deleting from the right run, then from the left run. */
  lemma DeleteRuns<T>(buf: seq<T>, g: Group, P: seq<int>, L: int, Xd: seq<T>, Yd: seq<T>)
    requires Fits(buf, g) && 0 <= L <= |P|
    requires forall t :: 0 <= t < |P| ==> (t < L <==> P[t] < g.size - g.tip)
    requires Xd == Delete(buf[g.base + g.tip .. g.base + g.size], P[..L], 0)
    requires Yd == Delete(buf[g.base .. g.base + g.tip], P[L..], g.size - g.tip)
    ensures Delete(View(buf, g), P, 0) == Xd + Yd
  {
    var X := buf[g.base + g.tip .. g.base + g.size];
    var Y := buf[g.base .. g.base + g.tip];
    assert View(buf, g) == X + Y by {
      ViewIsRuns(buf, g);
    }
    assert Delete(X + Y, P, 0) == Xd + Yd by {
      DeleteHalves(X, Y, P, L, g.size - g.tip);
    }
  }

  lemma SpliceSlices<T>(buf: seq<T>, lo: int, hi: int, Y': seq<T>, X': seq<T>, buf1: seq<T>, R: int, n: int)
    requires 0 <= lo && lo + |Y'| + |X'| == hi <= |buf| && 0 <= R <= |Y'| && 0 <= n <= |X'|
    requires buf1 == buf[..lo] + Y' + X' + buf[hi..]
    ensures |buf1| == |buf|
    ensures buf1[lo + R .. lo + |Y'|] == Y'[R..]
    ensures buf1[lo + |Y'| .. lo + |Y'| + n] == X'[..n]
    ensures UnchangedOutside(buf1, buf, lo, hi)
  {
    forall i | 0 <= i < |buf1| && !(lo <= i < hi)
      ensures buf1[i] == buf[i]
    {
      if i >= hi {
        assert buf1[i] == buf[hi..][i - hi];
      }
    }
  }

  /** A group whose runs sit where the spliced X' and Y' put them reads X' then Y'. */
  lemma ViewOfRuns<T>(buf1: seq<T>, g1: Group, lo: int, Y': seq<T>, X': seq<T>, R: int, n: int)
    requires Fits(buf1, g1) && 0 <= R <= |Y'| && 0 <= n <= |X'|
    requires g1.base == lo + R && g1.tip == |Y'| - R && g1.size == |Y'| - R + n
    requires buf1[lo + R .. lo + |Y'|] == Y'[R..]
    requires buf1[lo + |Y'| .. lo + |Y'| + n] == X'[..n]
    ensures View(buf1, g1) == X'[..n] + Y'[R..]
  {
    ViewIsRuns(buf1, g1);
    assert g1.base + g1.tip == lo + |Y'|;
    assert g1.base + g1.size == lo + |Y'| + n;
  }

  /** Deleting from the logical order X + Y splits at the right-run length |X|. */
  lemma DeleteHalves<T>(X: seq<T>, Y: seq<T>, P: seq<int>, L: int, off: int)
    requires 0 <= L <= |P| && off == |X|
    requires forall t :: 0 <= t < |P| ==> (t < L <==> P[t] < off)
    ensures Delete(X + Y, P, 0) == Delete(X, P[..L], 0) + Delete(Y, P[L..], off)
  {
    DeleteConcat(X, Y, P, 0);
    SplitMembership(P, L, off);
    DeleteSame(X, P, P[..L], 0);
    DeleteSame(Y, P, P[L..], off);
  }

  /**
   * remComponent with the corrected final roll: removes the records at the
   * ascending logical positions P and returns how many of them lay right of
   * the tip. The group keeps its base, shrinks by |P|, and its logical order
   * is the old one with the listed positions deleted; nothing outside its
   * old slice changes.
   */
  function RemComponent<T>(buf: seq<T>, g: Group, P: seq<int>): (r: (Placed<T>, int))
    requires Fits(buf, g) && Increasing(P) && Within(P, 0, g.size)
    ensures 0 <= r.1 <= |P| && forall t :: 0 <= t < |P| ==> (t < r.1 <==> P[t] < g.size - g.tip)
    ensures r.0.g.base == g.base && r.0.g.size == g.size - |P| && Fits(r.0.buf, r.0.g)
    ensures View(r.0.buf, r.0.g) == Delete(View(buf, g), P, 0)
    ensures UnchangedOutside(r.0.buf, buf, g.base, g.base + g.size)
  {
    var c := Compress(buf, g, P);
    var rolled := RollCounterClockwise(c.0.buf, c.0.g, |P| - c.1);
    RemFacts(buf, g, |P|, c.0, rolled);
    (rolled, c.1)
  }

  lemma RemFacts<T>(buf: seq<T>, g: Group, n: int, c: Placed<T>, rolled: Placed<T>)
    requires Fits(buf, g) && 0 <= c.g.base - g.base <= g.size
    requires UnchangedOutside(c.buf, buf, g.base, g.base + g.size)
    requires rolled.g.base == c.g.base - (if c.g.base < c.g.base - g.base then c.g.base else c.g.base - g.base)
    requires UnchangedOutside(rolled.buf, c.buf, rolled.g.base, c.g.base)
    ensures rolled.g.base == g.base
    ensures UnchangedOutside(rolled.buf, buf, g.base, g.base + g.size)
  {
    forall i | 0 <= i < |rolled.buf| && !(g.base <= i < g.base + g.size)
      ensures rolled.buf[i] == buf[i]
    {
      assert rolled.buf[i] == c.buf[i];
    }
  }

  /**
   * remComponent as written, with the final roll that moves the base back by
   * min(R, new size) only: when more records left of the tip are removed
   * than remain, the group ends up at the wrong place.
   */
  function RemComponentAsWritten<T>(buf: seq<T>, g: Group, P: seq<int>): (r: (Placed<T>, int))
    requires Fits(buf, g) && Increasing(P) && Within(P, 0, g.size)
    ensures 0 <= r.1 <= |P| && forall t :: 0 <= t < |P| ==> (t < r.1 <==> P[t] < g.size - g.tip)
    ensures r.0.g.size == g.size - |P| && Fits(r.0.buf, r.0.g)
    ensures |P| - r.1 <= g.size - |P| ==>
      r.0.g.base == g.base && View(r.0.buf, r.0.g) == Delete(View(buf, g), P, 0)
  {
    var c := Compress(buf, g, P);
    var rolled := RollCounterClockwiseAsWritten(c.0.buf, c.0.g, |P| - c.1);
    (rolled, c.1)
  }

  /**
   * The counterexample: records [7, 8, 9] in a group at 0 of size 3 with its
   * tip at 2 hold the logical order [9, 7, 8]; removing positions 1 and 2
   * should leave [9] at base 0, but the code as written leaves the group at
   * base 1 reading [8].
   */
  lemma RemComponentAsWrittenLosesRecord()
    ensures var r := RemComponentAsWritten([7, 8, 9], Group(0, 3, 2), [1, 2]);
      r.0.g == Group(1, 1, 0) && View(r.0.buf, r.0.g) == [8]
    ensures var r := RemComponent([7, 8, 9], Group(0, 3, 2), [1, 2]);
      r.0.g.base == 0 && View(r.0.buf, r.0.g) == [9]
  {
    CompressExample();
    RollCounterClockwiseAsWrittenLosesRecord();
  }

  /** Both passes on the example: nothing lies right of the tip, and the two removed slots open at the front. */
  lemma CompressExample()
    ensures Compress([7, 8, 9], Group(0, 3, 2), [1, 2]) == (Placed([7, 8, 9], Group(2, 1, 0)), 0)
  {
    CountBelowExample();
    CompressSplitExample();
  }

  lemma CompressSplitExample()
    ensures CompressSplit([7, 8, 9], Group(0, 3, 2), [1, 2], 0) == Placed([7, 8, 9], Group(2, 1, 0))
  {
    var buf := [7, 8, 9];
    assert buf[0 + 2 .. 0 + 3] == [9] && buf[0 .. 0 + 2] == [7, 8];
    assert buf[..0] + [7, 8] + [9] + buf[0 + 3..] == [7, 8, 9];
    CompressLeftExample();
    CompressRightExample();
  }

  lemma CompressRightExample()
    ensures CompressRight([9], [1, 2], 0) == [9]
  {
  }

  lemma CountBelowExample()
    ensures CountBelow([1, 2], 3 - 2) == 0
  {
    var P := [1, 2];
    assert P[..1] == [1];
    assert [1][..0] == [];
  }

  lemma CompressLeftExample()
    ensures CompressLeft([7, 8], [1, 2], 0, 3 - 2) == [7, 8]
  {
    var P := [1, 2];
    assert RunUp(P, 0, 1) == 2;
    assert Move([7, 8], 2, 0, 0) == [7, 8];
  }
}
