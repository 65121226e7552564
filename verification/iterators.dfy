/**
 * The iterators a storage hands to the dispatch loop
 * (src/Core/ComponentsIterator.hpp).
 *
 * A CompIt describes one group: the address of its slice start (an offset
 * into the storage's buffer), the length lSize of the run left of the tip
 * (physical [0, tip)) and the length rSize of the run right of it (physical
 * [tip, size)). A CompGroupIt is a list of at most 50 of them.
 */
module Iterators {
  import opened Groups

  datatype CompIt = CompIt(data: int, lSize: int, rSize: int)

  /** A chunk: the address of its first record and the number of records it reports. */
  datatype Chunk = Chunk(ptr: int, size: int)

  /** The capacity of CompGroupIt's fixed array. */
  const MaxGroups: int := 50

  /** The default CompIt: no data and both runs empty. */
  function DefaultCompIt(): (it: CompIt)
    ensures GetSize(it) == 0
  {
    CompIt(0, 0, 0)
  }

  /** CompIt(data, offset, size): the tip offset is the left run, the rest is the right run. */
  function MakeCompIt(data: int, offset: int, size: int): (it: CompIt)
    ensures it.data == data && it.lSize == offset
    ensures GetSize(it) == size
  {
    CompIt(data, offset, size - offset)
  }

  function GetSize(it: CompIt): int {
    it.lSize + it.rSize
  }

  /** The iterator CompGroupIt builds for one group: its base, tip and size. */
  function GroupIt(g: Group): CompIt {
    MakeCompIt(g.base, g.tip, g.size)
  }

  /**
   * getChunk(id): for an id inside the right run, the address of that record
   * and the whole right run's length; otherwise the address of record
   * id - rSize of the left run and the whole left run's length. The length
   * reported is the run's, not what is left of it after id.
   */
  function GetChunk(it: CompIt, id: int): Chunk {
    if id < it.rSize then Chunk(it.data + it.lSize + id, it.rSize) else Chunk(it.data + (id - it.rSize), it.lSize)
  }

  /**
   * getChunk reporting the records left in the run from id on; the chunk
   * length the dispatch loop needs to keep several types aligned.
   */
  function GetChunkAligned(it: CompIt, id: int): (c: Chunk)
    ensures c.ptr == GetChunk(it, id).ptr
    ensures id < it.rSize ==> c.size == it.rSize - id
    ensures it.rSize <= id ==> c.size == GetSize(it) - id
  {
    var c := GetChunk(it, id);
    if id < it.rSize then Chunk(c.ptr, c.size - id) else Chunk(c.ptr, c.size - (id - it.rSize))
  }

  /**
   * For a group laid out in a buffer, the record at logical position id
   * sits at the chunk address getChunk returns for id.
   */
  lemma GetChunkAddressesView<T>(buf: seq<T>, g: Group, id: int)
    requires Fits(buf, g) && 0 <= id < g.size
    ensures var c := GetChunk(GroupIt(g), id);
      g.base <= c.ptr < g.base + g.size && buf[c.ptr] == View(buf, g)[id]
  {
    ViewAt(buf, g, id);
  }

  /**
   * The two chunks of a group, getChunk(0) and then getChunk(rSize) when the
   * right run does not already cover the group, read the group's records in
   * the logical order getComponent(0 .. size - 1) gives them.
   */
  lemma TwoChunksReadView<T>(buf: seq<T>, g: Group)
    requires Fits(buf, g) && 0 < g.size
    ensures var it := GroupIt(g); var c0 := GetChunk(it, 0);
      0 < c0.size <= g.size && g.base <= c0.ptr && c0.ptr + c0.size <= g.base + g.size
      && (c0.size == g.size ==> buf[c0.ptr .. c0.ptr + c0.size] == View(buf, g))
      && (c0.size < g.size ==>
            var c1 := GetChunk(it, c0.size);
            c0.size + c1.size == g.size && g.base <= c1.ptr && c1.ptr + c1.size <= g.base + g.size
            && buf[c0.ptr .. c0.ptr + c0.size] + buf[c1.ptr .. c1.ptr + c1.size] == View(buf, g))
  {
    ViewIsRuns(buf, g);
    if g.tip == g.size {
      assert buf[g.base + g.tip .. g.base + g.size] == [];
    }
  }

  /**
   * CompGroupIt(groups, n, data): one CompIt per group, built from the
   * group's base, tip and size. Its count is a uint8_t over a 50-entry
   * array, so n may not exceed 50.
   */
  function MakeCompGroupIt(groups: seq<Group>): (r: seq<CompIt>)
    requires |groups| <= MaxGroups
    ensures |r| == |groups|
    ensures forall i :: 0 <= i < |r| ==> r[i] == GroupIt(groups[i])
  {
    seq(|groups|, i requires 0 <= i < |groups| => GroupIt(groups[i]))
  }
}
