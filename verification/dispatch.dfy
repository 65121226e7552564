/**
 * The chunked dispatch loop of BaseSystem<T...> (src/ravine/ecs/BaseSystem.hpp).
 *
 * The system holds one CompGroupIt per type of its type list, all fetched for
 * the same combined key. For each group of the first type's iterator it
 * fetches, from logical position 0 on, one chunk per type (FetchPack), takes
 * the smallest reported chunk size, hands the chunk addresses and that size
 * to the system's update, and advances by the size. The update callback
 * itself belongs to the concrete systems: the model records the calls it
 * receives.
 */
module Dispatch {
  import opened FastMath
  import opened Groups
  import opened Iterators

  /** One call update(deltaTime, size, ptr_1, ..., ptr_n) made for the group at index group. */
  datatype Call = Call(group: int, size: int, ptrs: seq<int>)

  /** The chunk a type reports at a fetch id: by getChunk as written, or by the aligned variant. */
  function Fetch(it: CompIt, id: int, aligned: bool): Chunk {
    if aligned then GetChunkAligned(it, id) else GetChunk(it, id)
  }

  /** Both runs of an iterator have int32 lengths. */
  predicate ItOk(it: CompIt) {
    0 <= it.lSize && 0 <= it.rSize && it.lSize + it.rSize <= Int32Max
  }

  /**
   * FetchPack<I, S...>::fetchChunk: the first type's chunk address followed
   * by the rest's, and the smaller of the first type's chunk size and the
   * rest's; FetchPack<> yields no address and INT32_MAX. So one address per
   * type, and the smallest chunk size any type reports.
   */
  function FetchPack(col: seq<CompIt>, id: int, aligned: bool): (seq<int>, int)
    decreases |col|
  {
    if |col| == 0 then ([], Int32Max)
    else
      var c := Fetch(col[0], id, aligned);
      var rest := FetchPack(col[1..], id, aligned);
      ([c.ptr] + rest.0, if c.size < rest.1 then c.size else rest.1)
  }

  /** FetchPack yields each type's chunk address, in type order, and a size no larger than any type's chunk. */
  lemma {:induction false} FetchPackFacts(col: seq<CompIt>, id: int, aligned: bool)
    ensures var r := FetchPack(col, id, aligned);
      |r.0| == |col|
      && (forall t :: 0 <= t < |col| ==> r.0[t] == Fetch(col[t], id, aligned).ptr && r.1 <= Fetch(col[t], id, aligned).size)
      && (|col| == 0 ==> r.1 == Int32Max)
    decreases |col|
  {
    if |col| > 0 {
      FetchPackFacts(col[1..], id, aligned);
      assert forall t :: 1 <= t < |col| ==> col[1..][t - 1] == col[t];
    }
  }

  /** With at least one type, the size FetchPack yields is one of the types' chunk sizes. */
  lemma {:induction false} FetchPackAttained(col: seq<CompIt>, id: int, aligned: bool) returns (t: int)
    requires |col| > 0 && forall t :: 0 <= t < |col| ==> Fetch(col[t], id, aligned).size <= Int32Max
    ensures 0 <= t < |col| && FetchPack(col, id, aligned).1 == Fetch(col[t], id, aligned).size
    decreases |col|
  {
    var c := Fetch(col[0], id, aligned);
    if |col| == 1 {
      FetchPackFacts(col[1..], id, aligned);
      t := 0;
    } else {
      var u := FetchPackAttained(col[1..], id, aligned);
      t := if c.size < FetchPack(col[1..], id, aligned).1 then 0 else u + 1;
    }
  }

  /** The iterators of one group, one per type: each well formed and all reporting the same size. */
  predicate Column(col: seq<CompIt>) {
    |col| >= 1 && forall t :: 0 <= t < |col| ==> ItOk(col[t]) && GetSize(col[t]) == GetSize(col[0])
  }

  /** While the fetch id is inside the group, every type reports a chunk of at least one record. */
  lemma FetchPositive(col: seq<CompIt>, id: int, aligned: bool)
    requires Column(col) && 0 <= id < GetSize(col[0])
    ensures forall t :: 0 <= t < |col| ==> 0 < Fetch(col[t], id, aligned).size <= Int32Max
    ensures 0 < FetchPack(col, id, aligned).1
  {
    var t := FetchPackAttained(col, id, aligned);
    FetchPackFacts(col, id, aligned);
  }

  /**
   * The calls the inner loop makes for the group at index gi from fetch id
   * on; it ends because every chunk size is positive.
   */
  function GroupCalls(col: seq<CompIt>, gi: int, id: int, aligned: bool): seq<Call>
    requires Column(col) && 0 <= id
    decreases GetSize(col[0]) - id
  {
    if id >= GetSize(col[0]) then []
    else
      FetchPositive(col, id, aligned);
      var f := FetchPack(col, id, aligned);
      [Call(gi, f.1, f.0)] + GroupCalls(col, gi, id + f.1, aligned)
  }

  /** The iterators every type holds for its i-th group. */
  function ColumnAt(its: seq<seq<CompIt>>, i: int): (col: seq<CompIt>)
    requires 0 <= i && forall t :: 0 <= t < |its| ==> i < |its[t]|
    ensures |col| == |its|
    ensures forall t :: 0 <= t < |its| ==> i < |its[t]| && col[t] == its[t][i]
  {
    seq(|its|, t requires 0 <= t < |its| && 0 <= i < |its[t]| => its[t][i])
  }

  /**
   * The iterators the system fetched: at least one type, each type holding
   * the same number of groups, and the i-th group of every type reporting
   * the same size.
   */
  predicate Consistent(its: seq<seq<CompIt>>) {
    |its| >= 1
    && forall t :: 0 <= t < |its| ==>
         |its[t]| == |its[0]|
         && forall i :: 0 <= i < |its[t]| ==> ItOk(its[t][i]) && GetSize(its[t][i]) == GetSize(its[0][i])
  }

  lemma ConsistentColumn(its: seq<seq<CompIt>>, i: int)
    requires Consistent(its) && 0 <= i < |its[0]|
    ensures Column(ColumnAt(its, i))
  {
  }

  /** The calls made for the groups before index i, in order. */
  function Upto(its: seq<seq<CompIt>>, i: int, aligned: bool): seq<Call>
    requires Consistent(its) && 0 <= i <= |its[0]|
  {
    if i == 0 then []
    else
      ConsistentColumn(its, i - 1);
      Upto(its, i - 1, aligned) + GroupCalls(ColumnAt(its, i - 1), i - 1, 0, aligned)
  }

  /** Every call the dispatch makes, group after group. */
  function Calls(its: seq<seq<CompIt>>, aligned: bool): seq<Call>
    requires Consistent(its)
  {
    Upto(its, |its[0]|, aligned)
  }

  /**
   * updateUnfold: visits the groups 0 .. count - 1 of the first type's
   * iterator and, for each, fetches chunks from id 0 and advances by the
   * chunk size while below the group's size. The calls it makes are exactly
   * Calls(its, aligned): with aligned false the chunk sizes are getChunk's as
   * written, with aligned true the remaining run lengths.
   */
  method UpdateUnfold(its: seq<seq<CompIt>>, aligned: bool) returns (calls: seq<Call>)
    requires Consistent(its)
    ensures calls == Calls(its, aligned)
  {
    var groupCount := |its[0]|;
    calls := [];
    var i := 0;
    while i < groupCount
      invariant 0 <= i <= groupCount
      invariant calls == Upto(its, i, aligned)
    {
      ConsistentColumn(its, i);
      var groupCalls := UnfoldGroup(ColumnAt(its, i), i, aligned);
      calls := calls + groupCalls;
      i := i + 1;
    }
  }

  /**
   * The inner loop of updateUnfold for the group at index gi: from fetch id 0,
   * while below the first type's group size, one call per FetchPack, advancing
   * by the chunk size it reports.
   */
  method UnfoldGroup(col: seq<CompIt>, gi: int, aligned: bool) returns (calls: seq<Call>)
    requires Column(col)
    ensures calls == GroupCalls(col, gi, 0, aligned)
  {
    var groupSize := GetSize(col[0]);
    var fetchIt := 0;
    calls := [];
    while fetchIt < groupSize
      invariant 0 <= fetchIt
      invariant calls + GroupCalls(col, gi, fetchIt, aligned) == GroupCalls(col, gi, 0, aligned)
      decreases groupSize - fetchIt
    {
      GroupCallsStep(col, gi, fetchIt, aligned);
      var f := FetchPack(col, fetchIt, aligned);
      var chunkSize := f.1;
      ghost var rest := GroupCalls(col, gi, fetchIt + chunkSize, aligned);
      assert (calls + [Call(gi, chunkSize, f.0)]) + rest == calls + ([Call(gi, chunkSize, f.0)] + rest);
      calls := calls + [Call(gi, chunkSize, f.0)];
      fetchIt := fetchIt + chunkSize;
    }
    GroupCallsDone(col, gi, fetchIt, aligned);
  }

  /** One turn of the inner loop: the call for the chunk at id, then the calls from id + its size. */
  lemma GroupCallsStep(col: seq<CompIt>, gi: int, id: int, aligned: bool)
    requires Column(col) && 0 <= id < GetSize(col[0])
    ensures 0 < FetchPack(col, id, aligned).1
    ensures var f := FetchPack(col, id, aligned);
      GroupCalls(col, gi, id, aligned) == [Call(gi, f.1, f.0)] + GroupCalls(col, gi, id + f.1, aligned)
  {
    FetchPositive(col, id, aligned);
  }

  lemma GroupCallsDone(col: seq<CompIt>, gi: int, id: int, aligned: bool)
    requires Column(col) && GetSize(col[0]) <= id
    ensures GroupCalls(col, gi, id, aligned) == []
  {
  }

  /** Every call hands one address per type and a chunk of at least one record. */
  lemma {:induction false} GroupCallsShape(col: seq<CompIt>, gi: int, id: int, aligned: bool)
    requires Column(col) && 0 <= id
    ensures var calls := GroupCalls(col, gi, id, aligned);
      forall k :: 0 <= k < |calls| ==> calls[k].group == gi && calls[k].size > 0 && |calls[k].ptrs| == |col|
    decreases GetSize(col[0]) - id
  {
    if id < GetSize(col[0]) {
      GroupCallsStep(col, gi, id, aligned);
      FetchPackFacts(col, id, aligned);
      var f := FetchPack(col, id, aligned);
      GroupCallsShape(col, gi, id + f.1, aligned);
    }
  }

  // ---------------------------------------------------------------------------
  // What the chunks read

  /**
   * The calls read, for the type at index t, the records of group g from
   * logical position id to its end: each chunk lies inside the group's slice
   * and holds the next records in logical order.
   */
  ghost predicate ReadsFrom<T>(buf: seq<T>, g: Group, calls: seq<Call>, t: int, id: int)
    requires Fits(buf, g)
    decreases |calls|
  {
    if |calls| == 0 then id == g.size
    else ReadsChunk(buf, g, calls[0], t, id) && ReadsFrom(buf, g, calls[1..], t, id + calls[0].size)
  }

  /** The chunk of one call holds, for type t, the group's records id .. id + size - 1. */
  ghost predicate ReadsChunk<T>(buf: seq<T>, g: Group, c: Call, t: int, id: int)
    requires Fits(buf, g)
  {
    0 <= t < |c.ptrs| && 0 <= id && 0 <= c.size && id + c.size <= g.size
    && g.base <= c.ptrs[t] && c.ptrs[t] + c.size <= g.base + g.size
    && buf[c.ptrs[t] .. c.ptrs[t] + c.size] == View(buf, g)[id .. id + c.size]
  }

  /** Inside one run of the tip split, consecutive logical records sit at consecutive slots. */
  lemma RunIsContiguous<T>(buf: seq<T>, g: Group, id: int, n: int)
    requires Fits(buf, g) && 0 <= id && 0 < n && id + n <= g.size
    requires id + n <= g.size - g.tip || g.size - g.tip <= id
    ensures var p := PhysOf(g, id);
      g.base <= p && p + n <= g.base + g.size && buf[p .. p + n] == View(buf, g)[id .. id + n]
  {
    var p := PhysOf(g, id);
    ViewAt(buf, g, id);
    var a, b := buf[p .. p + n], View(buf, g)[id .. id + n];
    forall k | 0 <= k < n
      ensures a[k] == b[k]
    {
      ViewAt(buf, g, id + k);
    }
  }

  /**
   * With chunk sizes reporting what is left of each run, every type's chunks
   * read its own group in logical order, whatever the types' tips: the
   * smallest remaining run never crosses any type's wrap point.
   */
  lemma {:induction false} AlignedCallsRead<T>(buf: seq<T>, g: Group, col: seq<CompIt>, t: int, gi: int, id: int)
    requires Column(col) && 0 <= t < |col| && col[t] == GroupIt(g) && Fits(buf, g) && 0 <= id <= g.size
    ensures ReadsFrom(buf, g, GroupCalls(col, gi, id, true), t, id)
    decreases g.size - id
  {
    if id < g.size {
      var f := FetchPack(col, id, true);
      var c := Call(gi, f.1, f.0);
      AlignedStep(buf, g, col, t, gi, id);
      var rest := GroupCalls(col, gi, id + f.1, true);
      assert ReadsFrom(buf, g, rest, t, id + f.1) by {
        AlignedCallsRead(buf, g, col, t, gi, id + f.1);
      }
      ReadsFromCons(buf, g, c, rest, t, id);
      GroupCallsStep(col, gi, id, true);
    } else {
      GroupCallsDone(col, gi, id, true);
    }
  }

  /** The aligned chunk at id reads, for type t, the records id .. id + size - 1 of its group. */
  lemma AlignedStep<T>(buf: seq<T>, g: Group, col: seq<CompIt>, t: int, gi: int, id: int)
    requires Column(col) && 0 <= t < |col| && col[t] == GroupIt(g) && Fits(buf, g) && 0 <= id < g.size
    ensures var f := FetchPack(col, id, true);
      0 < f.1 && ReadsChunk(buf, g, Call(gi, f.1, f.0), t, id)
  {
    var f := FetchPack(col, id, true);
    AlignedHead(col, t, g, id);
    RunIsContiguous(buf, g, id, f.1);
  }

  /** A chunk reading the records from id on, followed by calls reading the rest of the group. */
  lemma ReadsFromCons<T>(buf: seq<T>, g: Group, c: Call, rest: seq<Call>, t: int, id: int)
    requires Fits(buf, g) && ReadsChunk(buf, g, c, t, id) && ReadsFrom(buf, g, rest, t, id + c.size)
    ensures ReadsFrom(buf, g, [c] + rest, t, id)
  {
    assert ([c] + rest)[1..] == rest;
  }

  /** The aligned chunk at id starts at id's slot and stays inside id's run. */
  lemma AlignedHead(col: seq<CompIt>, t: int, g: Group, id: int)
    requires Column(col) && 0 <= t < |col| && col[t] == GroupIt(g) && 0 <= g.tip <= g.size && 0 <= id < g.size
    ensures var f := FetchPack(col, id, true);
      |f.0| == |col| && f.0[t] == PhysOf(g, id) && 0 < f.1 && id + f.1 <= g.size
      && (id + f.1 <= g.size - g.tip || g.size - g.tip <= id)
  {
    FetchPositive(col, id, true);
    FetchPackFacts(col, id, true);
    assert Fetch(col[t], id, true) == GetChunkAligned(GroupIt(g), id);
  }

  /**
   * When every type's group has the same tip, getChunk as written reports
   * exactly the remaining run at the only ids the loop visits (0 and the
   * right run's length), so the dispatch as written makes the aligned calls.
   */
  lemma {:induction false} EqualTipsSameCalls(col: seq<CompIt>, gi: int, id: int)
    requires Column(col) && forall t :: 0 <= t < |col| ==> col[t].rSize == col[0].rSize
    requires id == 0 || id == col[0].rSize
    ensures GroupCalls(col, gi, id, false) == GroupCalls(col, gi, id, true)
    decreases GetSize(col[0]) - id
  {
    if id < GetSize(col[0]) {
      FetchPositive(col, id, false);
      FetchPositive(col, id, true);
      assert forall t :: 0 <= t < |col| ==> Fetch(col[t], id, false) == Fetch(col[t], id, true);
      FetchPackSame(col, id);
      var n := FetchPack(col, id, false).1;
      var u := FetchPackAttained(col, id, false);
      assert n == Fetch(col[0], id, false).size;
      if id + n < GetSize(col[0]) {
        EqualTipsSameCalls(col, gi, id + n);
      }
    }
  }

  lemma FetchPackSame(col: seq<CompIt>, id: int)
    requires forall t :: 0 <= t < |col| ==> Fetch(col[t], id, false) == Fetch(col[t], id, true)
    ensures FetchPack(col, id, false) == FetchPack(col, id, true)
    decreases |col|
  {
    if |col| > 0 {
      assert col[1..] == col[1..];
      FetchPackSame(col[1..], id);
    }
  }

  /**
   * The dispatch as written reads every type's group correctly when the
   * groups share their tip; with one type this is always the case: the
   * right run and then the left run, covering the group's records in
   * logical order.
   */
  lemma EqualTipsCallsRead<T>(buf: seq<T>, g: Group, col: seq<CompIt>, t: int, gi: int)
    requires Column(col) && 0 <= t < |col| && col[t] == GroupIt(g) && Fits(buf, g)
    requires forall u :: 0 <= u < |col| ==> col[u].rSize == col[0].rSize
    ensures ReadsFrom(buf, g, GroupCalls(col, gi, 0, false), t, 0)
  {
    EqualTipsSameCalls(col, gi, 0);
    AlignedCallsRead(buf, g, col, t, gi, 0);
  }

  /** FetchPack over two types, spelled out. */
  lemma FetchPackOfTwo(col: seq<CompIt>, id: int, aligned: bool)
    requires |col| == 2
    ensures var c0, c1 := Fetch(col[0], id, aligned), Fetch(col[1], id, aligned);
      c1.size <= Int32Max ==>
      FetchPack(col, id, aligned) == ([c0.ptr, c1.ptr], if c0.size < c1.size then c0.size else c1.size)
  {
    var tail := col[1..];
    assert tail[1..] == [] && tail[0] == col[1];
    assert FetchPack(tail[1..], id, aligned) == ([], Int32Max);
    var c1 := Fetch(tail[0], id, aligned);
    assert [c1.ptr] + [] == [c1.ptr];
    assert FetchPack(tail, id, aligned) == ([c1.ptr], if c1.size < Int32Max then c1.size else Int32Max);
    assert [Fetch(col[0], id, aligned).ptr] + [c1.ptr] == [Fetch(col[0], id, aligned).ptr, c1.ptr];
  }

  /**
   * Two types whose groups of three records have tips 1 and 2: at fetch id 1
   * the first type reports its whole right run of 2 from slot 2, so the chunk
   * of 2 records handed to update runs past the first group's slice [0, 3).
   */
  lemma MisalignedChunkOverruns()
    ensures var col := [GroupIt(Group(0, 3, 1)), GroupIt(Group(0, 3, 2))];
      FetchPack(col, 0, false) == ([1, 2], 1)
      && FetchPack(col, 1, false) == ([2, 0], 2)
      && GroupCalls(col, 0, 0, false) == [Call(0, 1, [1, 2]), Call(0, 2, [2, 0])]
  {
    var col := [GroupIt(Group(0, 3, 1)), GroupIt(Group(0, 3, 2))];
    assert col == [CompIt(0, 1, 2), CompIt(0, 2, 1)];
    FetchPackOfTwo(col, 0, false);
    FetchPackOfTwo(col, 1, false);
    GroupCallsStep(col, 0, 0, false);
    GroupCallsStep(col, 0, 1, false);
    GroupCallsDone(col, 0, 3, false);
  }

  /** The same two groups with the aligned chunk size: three calls, each inside both slices. */
  lemma AlignedChunksStayInside()
    ensures var col := [GroupIt(Group(0, 3, 1)), GroupIt(Group(0, 3, 2))];
      GroupCalls(col, 0, 0, true) == [Call(0, 1, [1, 2]), Call(0, 1, [2, 0]), Call(0, 1, [0, 1])]
  {
    var col := [GroupIt(Group(0, 3, 1)), GroupIt(Group(0, 3, 2))];
    assert col == [CompIt(0, 1, 2), CompIt(0, 2, 1)];
    FetchPackOfTwo(col, 0, true);
    FetchPackOfTwo(col, 1, true);
    FetchPackOfTwo(col, 2, true);
    GroupCallsStep(col, 0, 0, true);
    GroupCallsStep(col, 0, 1, true);
    GroupCallsStep(col, 0, 2, true);
    GroupCallsDone(col, 0, 3, true);
  }
}
