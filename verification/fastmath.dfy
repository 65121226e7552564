/**
 * Branchless integer helpers and the subset-sum enumeration used by the
 * archetype registry (src/ravine/ecs/FastMath.h).
 *
 * Integers are unbounded in Dafny; the 32-bit arithmetic of the helpers is
 * written out with Wrap32. `highestPowerOfTwoIn` works on bv32 exactly as the
 * source works on uint32_t.
 */
module FastMath {

  const Int32Min: int := -0x8000_0000
  const Int32Max: int := 0x7fff_ffff

  predicate IsInt32(x: int) {
    Int32Min <= x <= Int32Max
  }

  /** The two's-complement result of an int32 computation whose exact value is x. */
  function Wrap32(x: int): (r: int)
    ensures IsInt32(r)
    ensures (x - r) % 0x1_0000_0000 == 0
    ensures IsInt32(x) ==> r == x
  {
    (x - Int32Min) % 0x1_0000_0000 + Int32Min
  }

  /** signMask: the top bit of the value read as uint32, i.e. 1 for negative values. */
  function SignMask(v: int): (r: int)
    requires IsInt32(v)
    ensures r == (if v < 0 then 1 else 0)
  {
    (v % 0x1_0000_0000) / 0x8000_0000
  }

  /** Branchless min: selects by the sign of the (wrapping) difference a - b. */
  function Min(a: int, b: int): (r: int)
    requires IsInt32(a) && IsInt32(b)
    ensures r == a || r == b
    ensures IsInt32(a - b) ==> r == (if a < b then a else b)
  {
    var mask := SignMask(Wrap32(a - b));
    a * mask + b * (1 - mask)
  }

  /** Branchless max: the complementary selection to Min. */
  function Max(a: int, b: int): (r: int)
    requires IsInt32(a) && IsInt32(b)
    ensures r == a || r == b
    ensures IsInt32(a - b) ==> r == (if a < b then b else a)
  {
    var mask := SignMask(Wrap32(a - b));
    a * (1 - mask) + b * mask
  }

  /** Min and Max always pick complementary arguments, even when a - b wraps. */
  lemma MinMaxComplementary(a: int, b: int)
    requires IsInt32(a) && IsInt32(b)
    ensures Min(a, b) + Max(a, b) == a + b
  {
  }

  /** When a - b overflows, the sign test is inverted and Min returns the larger argument. */
  lemma MinOverflowPicksLarger()
    ensures Min(Int32Min, 1) == 1
    ensures Max(Int32Min, 1) == Int32Min
  {
    assert Wrap32(Int32Min - 1) == Int32Max;
  }

  // ---------------------------------------------------------------------------
  // highestPowerOfTwoIn

  /** Copies the highest set bit into every lower position. */
  function Smear(x: bv32): bv32 {
    var x1 := x | (x >> 1);
    var x2 := x1 | (x1 >> 2);
    var x3 := x2 | (x2 >> 4);
    var x4 := x3 | (x3 >> 8);
    x4 | (x4 >> 16)
  }

  lemma SmearIsLowMask(x: bv32)
    ensures Smear(x) & (Smear(x) + 1) == 0
    ensures x <= Smear(x)
    ensures x != 0 ==> Smear(x) >> 1 < x
  {
  }

  lemma TopBitOfLowMask(m: bv32, x: bv32)
    requires m & (m + 1) == 0 && x <= m && m >> 1 < x
    ensures var r := m ^ (m >> 1); r != 0 && r & (r - 1) == 0 && r <= x && x >> 1 < r
  {
  }

  /**
   * The highest power of two not above x (0 for 0): a single set bit p with
   * p <= x < 2p, stated as x >> 1 < p so that nothing overflows.
   */
  function HighestPowerOfTwoIn(x: bv32): (r: bv32)
    ensures x == 0 ==> r == 0
    ensures x != 0 ==> r != 0 && r & (r - 1) == 0 && r <= x && x >> 1 < r
  {
    var m := Smear(x);
    SmearIsLowMask(x);
    if x == 0 then m ^ (m >> 1) else TopBitOfLowMask(m, x); m ^ (m >> 1)
  }

  /** The result lies below the argument whenever the argument is not a power of two. */
  lemma HighestPowerOfTwoInIsNotAbove()
    ensures HighestPowerOfTwoIn(5) == 4
  {
    assert Smear(5) == 7;
  }

  // ---------------------------------------------------------------------------
  // getMaskCombinations

  function Pow2(n: nat): (r: nat)
    ensures r >= 1
  {
    if n == 0 then 1 else 2 * Pow2(n - 1)
  }

  /** Strictly increasing index tuple of length k with entries in [lo, n). */
  predicate ValidTuple(t: seq<int>, lo: int, n: int, k: nat) {
    |t| == k && Within(t, lo, n) && Increasing(t)
  }

  predicate Within(t: seq<int>, lo: int, n: int) {
    forall i :: 0 <= i < |t| ==> lo <= t[i] < n
  }

  predicate Increasing(t: seq<int>) {
    forall i, j :: 0 <= i < j < |t| ==> t[i] < t[j]
  }

  /** The tuple [lo, lo+1, ..., lo+k-1]. */
  function Iota(lo: int, k: nat): (r: seq<int>)
    ensures |r| == k && forall i :: 0 <= i < k ==> r[i] == lo + i
  {
    seq(k, i requires 0 <= i < k => lo + i)
  }

  function Prefixed(x: int, ts: seq<seq<int>>): (r: seq<seq<int>>)
    ensures |r| == |ts|
    ensures forall i :: 0 <= i < |ts| ==> r[i] == [x] + ts[i]
  {
    seq(|ts|, i requires 0 <= i < |ts| => [x] + ts[i])
  }

  /**
   * Reference enumeration: every strictly increasing k-tuple over [lo, n), in
   * lexicographic order (those starting with lo first).
   */
  function Combs(lo: int, n: int, k: nat): (r: seq<seq<int>>)
    decreases if n - lo < 0 then 0 else n - lo, k
    ensures forall i :: 0 <= i < |r| ==> |r[i]| == k
  {
    if k == 0 then [[]]
    else if n - lo < k then []
    else Prefixed(lo, Combs(lo + 1, n, k - 1)) + Combs(lo + 1, n, k)
  }

  /** Everything Combs lists is a valid tuple of the requested size and range. */
  lemma {:induction false} CombsValid(lo: int, n: int, k: nat)
    ensures forall i :: 0 <= i < |Combs(lo, n, k)| ==> ValidTuple(Combs(lo, n, k)[i], lo, n, k)
    decreases if n - lo < 0 then 0 else n - lo, k
  {
    if k > 0 && n - lo >= k {
      var a := Combs(lo + 1, n, k - 1);
      var b := Combs(lo + 1, n, k);
      var c := Prefixed(lo, a) + b;
      CombsValid(lo + 1, n, k - 1);
      CombsValid(lo + 1, n, k);
      forall i | 0 <= i < |c|
        ensures ValidTuple(c[i], lo, n, k)
      {
        if i < |a| {
          assert c[i] == [lo] + a[i];
          assert ValidTuple(a[i], lo + 1, n, k - 1);
        } else {
          assert c[i] == b[i - |a|];
        }
      }
    }
  }

  /** Tuples of sizes hi, hi-1, ..., lo+1 over [0, n), largest size first. */
  function Bands(n: nat, hi: int, lo: int): seq<seq<int>>
    decreases hi - lo
  {
    if hi <= lo || hi < 0 then [] else Combs(0, n, hi) + Bands(n, hi - 1, lo)
  }

  lemma {:induction false} BandsValid(n: nat, hi: int, lo: int)
    ensures forall i :: 0 <= i < |Bands(n, hi, lo)| ==> Within(Bands(n, hi, lo)[i], 0, n)
    decreases hi - lo
  {
    if !(hi <= lo || hi < 0) {
      CombsValid(0, n, hi);
      BandsValid(n, hi - 1, lo);
      var a := Combs(0, n, hi);
      var c := a + Bands(n, hi - 1, lo);
      forall i | 0 <= i < |c|
        ensures Within(c[i], 0, n)
      {
        if i < |a| {
          assert ValidTuple(a[i], 0, n, hi);
        }
      }
    }
  }

  /** Every non-empty subset of [0, n) as an index tuple, grouped by size, largest first. */
  function AllCombs(n: nat): seq<seq<int>> {
    Bands(n, n, 0)
  }

  /** The sum of the seeds an index tuple selects, accumulated left to right. */
  function SubsetSum(seeds: seq<int>, t: seq<int>): int
    requires Within(t, 0, |seeds|)
  {
    if |t| == 0 then 0 else SubsetSum(seeds, t[..|t| - 1]) + seeds[t[|t| - 1]]
  }

  /** The subset sums of all tuples in Bands(|seeds|, hi, lo), in order. */
  function BandSums(seeds: seq<int>, hi: int, lo: int): seq<int> {
    BandsValid(|seeds|, hi, lo);
    Sums(seeds, Bands(|seeds|, hi, lo))
  }

  /** The sums of all non-empty subsets of the seeds, in the order of AllCombs. */
  function SubsetSums(seeds: seq<int>): seq<int> {
    BandSums(seeds, |seeds|, 0)
  }

  function Sums(seeds: seq<int>, ts: seq<seq<int>>): (r: seq<int>)
    requires forall i :: 0 <= i < |ts| ==> Within(ts[i], 0, |seeds|)
    ensures |r| == |ts|
    ensures forall i :: 0 <= i < |ts| ==> r[i] == SubsetSum(seeds, ts[i])
  {
    seq(|ts|, i requires 0 <= i < |ts| => SubsetSum(seeds, ts[i]))
  }

  // --- the cursor step of the enumeration loop

  /** t[j] can still be incremented: it is below n - (|t| - j). */
  predicate Growable(t: seq<int>, n: int, j: int)
    requires 0 <= j < |t|
  {
    t[j] < n - (|t| - j)
  }

  /**
   * Cursor search with the limit taken at the cursor's own position: the
   * rightmost growable index j >= 1, otherwise 0.
   */
  function Cursor(t: seq<int>, n: int, j: int): (c: int)
    requires 0 <= j < |t|
    ensures 0 <= c <= j
    ensures c > 0 ==> Growable(t, n, c)
    ensures forall i :: c < i <= j ==> !Growable(t, n, i)
  {
    if j == 0 then 0 else if Growable(t, n, j) then j else Cursor(t, n, j - 1)
  }

  /**
   * The cursor search of FastMath.h:88-92 as written: every step compares the
   * entry under the cursor with the limit of the loop index i, not of the cursor.
   */
  function CursorAsWritten(t: seq<int>, n: int, i: int, cur: int): (c: int)
    requires 0 <= i <= cur < |t|
    ensures 0 <= c <= cur
    decreases i
  {
    if i < 1 then cur
    else CursorAsWritten(t, n, i - 1, if t[cur] >= n - (|t| - i) then cur - 1 else cur)
  }

  /** Increments the entry at c and resets every later entry to the next consecutive value. */
  function Advance(t: seq<int>, c: int): (r: seq<int>)
    requires 0 <= c < |t|
    ensures |r| == |t|
    ensures forall j :: 0 <= j < c ==> r[j] == t[j]
    ensures forall j :: c <= j < |t| ==> r[j] == t[c] + 1 + (j - c)
  {
    seq(|t|, j requires 0 <= j < |t| => if j < c then t[j] else t[c] + 1 + (j - c))
  }

  function Next(t: seq<int>, n: int): seq<int>
    requires |t| >= 1
  {
    Advance(t, Cursor(t, n, |t| - 1))
  }

  function NextAsWritten(t: seq<int>, n: int): seq<int>
    requires |t| >= 1
  {
    Advance(t, CursorAsWritten(t, n, |t| - 1, |t| - 1))
  }

  /**
   * For four seeds and triples, the loop as written steps from [0,1,2] to
   * [0,2,3] and never produces [0,1,3], a valid triple lying between the two;
   * its next steps are [1,2,3] and then a tuple that ends the loop, so it writes
   * 3 of the 4 triples and one entry of the 15-element result stays unwritten.
   */
  lemma CursorAsWrittenSkipsTuple()
    ensures NextAsWritten([0, 1, 2], 4) == [0, 2, 3]
    ensures Next([0, 1, 2], 4) == [0, 1, 3]
    ensures NextAsWritten([0, 2, 3], 4) == [1, 2, 3]
    ensures NextAsWritten([1, 2, 3], 4) == [2, 3, 4] && 2 > 4 - 3
    ensures [0, 1, 3] in Combs(0, 4, 3)
  {
    assert CursorAsWritten([0, 1, 2], 4, 2, 2) == 1;
    assert Cursor([0, 1, 2], 4, 2) == 2;
    assert CursorAsWritten([0, 2, 3], 4, 2, 2) == 0;
    assert CursorAsWritten([1, 2, 3], 4, 2, 2) == 0;
    assert Advance([0, 1, 2], 1) == [0, 2, 3];
    assert Advance([0, 1, 2], 2) == [0, 1, 3];
    assert Advance([0, 2, 3], 0) == [1, 2, 3];
    assert Advance([1, 2, 3], 0) == [2, 3, 4];
    TupleInCombs([0, 1, 3], 0, 4);
  }

  // --- properties of the reference enumeration

  lemma {:induction false} Spacing(t: seq<int>, i: int, j: int)
    requires Increasing(t)
    requires 0 <= i <= j < |t|
    ensures t[j] - t[i] >= j - i
    decreases j - i
  {
    if i < j {
      Spacing(t, i, j - 1);
    }
  }

  lemma InPrefixed(x: int, u: seq<int>, ts: seq<seq<int>>)
    requires u in ts
    ensures [x] + u in Prefixed(x, ts)
  {
    var i :| 0 <= i < |ts| && ts[i] == u;
    assert Prefixed(x, ts)[i] == [x] + u;
  }

  /** Every valid k-tuple over [lo, n) occurs in Combs(lo, n, k). */
  lemma {:induction false} TupleInCombs(t: seq<int>, lo: int, n: int)
    requires ValidTuple(t, lo, n, |t|)
    ensures t in Combs(lo, n, |t|)
    decreases if n - lo < 0 then 0 else n - lo, |t|, 1
  {
    if |t| == 0 {
      assert t == [];
    } else if t[0] == lo {
      TupleStartingAtLo(t, lo, n);
    } else {
      TupleAboveLo(t, lo, n);
    }
  }

  lemma {:induction false} TupleStartingAtLo(t: seq<int>, lo: int, n: int)
    requires ValidTuple(t, lo, n, |t|) && |t| >= 1 && t[0] == lo
    ensures t in Combs(lo, n, |t|)
    decreases if n - lo < 0 then 0 else n - lo, |t|, 0
  {
    TupleFits(t, lo, n);
    TailValid(t, lo, n);
    TupleInCombs(t[1..], lo + 1, n);
    InFirstBlock(lo, n, |t|, t[1..]);
    assert [lo] + t[1..] == t;
  }

  lemma {:induction false} TupleAboveLo(t: seq<int>, lo: int, n: int)
    requires ValidTuple(t, lo, n, |t|) && |t| >= 1 && t[0] != lo
    ensures t in Combs(lo, n, |t|)
    decreases if n - lo < 0 then 0 else n - lo, |t|, 0
  {
    TupleFits(t, lo, n);
    assert ValidTuple(t, lo + 1, n, |t|);
    TupleInCombs(t, lo + 1, n);
    InSecondBlock(lo, n, |t|, t);
  }

  /** k increasing entries in [lo, n) need n - lo >= k. */
  lemma TupleFits(t: seq<int>, lo: int, n: int)
    requires ValidTuple(t, lo, n, |t|) && |t| >= 1
    ensures n - lo >= |t|
  {
    Spacing(t, 0, |t| - 1);
  }

  lemma TailValid(t: seq<int>, lo: int, n: int)
    requires ValidTuple(t, lo, n, |t|) && |t| >= 1 && t[0] == lo
    ensures ValidTuple(t[1..], lo + 1, n, |t| - 1)
  {
    forall i | 0 <= i < |t| - 1
      ensures lo + 1 <= t[1..][i]
    {
      assert t[0] < t[i + 1];
    }
  }

  lemma InFirstBlock(lo: int, n: int, k: nat, u: seq<int>)
    requires k >= 1 && n - lo >= k && u in Combs(lo + 1, n, k - 1)
    ensures [lo] + u in Combs(lo, n, k)
  {
    var a := Combs(lo + 1, n, k - 1);
    assert Combs(lo, n, k) == Prefixed(lo, a) + Combs(lo + 1, n, k);
    InPrefixed(lo, u, a);
  }

  lemma InSecondBlock(lo: int, n: int, k: nat, t: seq<int>)
    requires k >= 1 && n - lo >= k && t in Combs(lo + 1, n, k)
    ensures t in Combs(lo, n, k)
  {
    assert Combs(lo, n, k) == Prefixed(lo, Combs(lo + 1, n, k - 1)) + Combs(lo + 1, n, k);
  }

  predicate NoDup<X(==)>(s: seq<X>) {
    forall i, j :: 0 <= i < j < |s| ==> s[i] != s[j]
  }

  lemma CombsNoDup(lo: int, n: int, k: nat)
    ensures NoDup(Combs(lo, n, k))
  {
    forall i, j | 0 <= i < j < |Combs(lo, n, k)|
      ensures Combs(lo, n, k)[i] != Combs(lo, n, k)[j]
    {
      CombsDistinctAt(lo, n, k, i, j);
    }
  }

  lemma {:induction false} CombsDistinctAt(lo: int, n: int, k: nat, i: int, j: int)
    requires 0 <= i < j < |Combs(lo, n, k)|
    ensures Combs(lo, n, k)[i] != Combs(lo, n, k)[j]
    decreases if n - lo < 0 then 0 else n - lo, k
  {
    var m := |Combs(lo + 1, n, k - 1)|;
    CombsAt(lo, n, k, i);
    CombsAt(lo, n, k, j);
    if j < m {
      CombsDistinctAt(lo + 1, n, k - 1, i, j);
      assert Combs(lo, n, k)[i][1..] == Combs(lo + 1, n, k - 1)[i];
      assert Combs(lo, n, k)[j][1..] == Combs(lo + 1, n, k - 1)[j];
    } else if i >= m {
      CombsDistinctAt(lo + 1, n, k, i - m, j - m);
    } else {
      CombsValidAt(lo + 1, n, k, j - m);
      assert Combs(lo, n, k)[i][0] == lo;
    }
  }

  lemma {:induction false} BandsNoDup(n: nat, hi: int, lo: int)
    requires 0 <= lo
    ensures NoDup(Bands(n, hi, lo))
    ensures forall i :: 0 <= i < |Bands(n, hi, lo)| ==> lo < |Bands(n, hi, lo)[i]| <= hi
    decreases hi - lo
  {
    if !(hi <= lo || hi < 0) {
      var a := Combs(0, n, hi);
      var b := Bands(n, hi - 1, lo);
      CombsNoDup(0, n, hi);
      BandsNoDup(n, hi - 1, lo);
      var c := a + b;
      forall i, j | 0 <= i < j < |c|
        ensures c[i] != c[j]
      {
        if j < |a| {
          assert c[i] == a[i] && c[j] == a[j];
        } else if i >= |a| {
          assert c[i] == b[i - |a|] && c[j] == b[j - |a|];
        } else {
          assert |c[i]| == hi;
          assert c[j] == b[j - |a|];
        }
      }
      forall i | 0 <= i < |c|
        ensures lo < |c[i]| <= hi
      {
        if i >= |a| {
          assert c[i] == b[i - |a|];
        }
      }
    }
  }

  lemma {:induction false} TupleInBands(t: seq<int>, n: nat, hi: int, lo: int)
    requires ValidTuple(t, 0, n, |t|) && lo < |t| <= hi
    ensures t in Bands(n, hi, lo)
    decreases hi - lo
  {
    if |t| == hi {
      TupleInCombs(t, 0, n);
    } else {
      TupleInBands(t, n, hi - 1, lo);
    }
  }

  /**
   * Each non-empty subset of [0, n), as an increasing index tuple, occurs in
   * AllCombs(n), and no tuple occurs twice: every subset exactly once.
   */
  lemma EachSubsetExactlyOnce(t: seq<int>, n: nat)
    requires ValidTuple(t, 0, n, |t|) && |t| >= 1
    ensures t in AllCombs(n)
    ensures NoDup(AllCombs(n))
  {
    Spacing(t, 0, |t| - 1);
    TupleInBands(t, n, n, 0);
    BandsNoDup(n, n, 0);
  }

  /** Tuples of the same size appear in strictly increasing lexicographic order. */
  predicate LexLess(a: seq<int>, b: seq<int>) {
    exists j :: 0 <= j < |a| && j < |b| && a[..j] == b[..j] && a[j] < b[j]
  }

  lemma CombsLexSorted(lo: int, n: int, k: nat)
    ensures forall i :: 0 <= i < |Combs(lo, n, k)| - 1 ==> LexLess(Combs(lo, n, k)[i], Combs(lo, n, k)[i + 1])
  {
    forall i | 0 <= i < |Combs(lo, n, k)| - 1
      ensures LexLess(Combs(lo, n, k)[i], Combs(lo, n, k)[i + 1])
    {
      CombsLexAt(lo, n, k, i);
    }
  }

  lemma {:induction false} CombsLexAt(lo: int, n: int, k: nat, i: int)
    requires 0 <= i < |Combs(lo, n, k)| - 1
    ensures LexLess(Combs(lo, n, k)[i], Combs(lo, n, k)[i + 1])
    decreases if n - lo < 0 then 0 else n - lo, k
  {
    var m := |Combs(lo + 1, n, k - 1)|;
    CombsAt(lo, n, k, i);
    CombsAt(lo, n, k, i + 1);
    if i + 1 < m {
      CombsLexAt(lo + 1, n, k - 1, i);
      LexPrefixed(lo, Combs(lo + 1, n, k - 1)[i], Combs(lo + 1, n, k - 1)[i + 1]);
    } else if i >= m {
      CombsLexAt(lo + 1, n, k, i - m);
    } else {
      CombsValidAt(lo + 1, n, k, 0);
      LexByFirst(Combs(lo, n, k)[i], Combs(lo, n, k)[i + 1]);
    }
  }

  lemma LexPrefixed(x: int, u: seq<int>, v: seq<int>)
    requires LexLess(u, v)
    ensures LexLess([x] + u, [x] + v)
  {
    var j :| 0 <= j < |u| && j < |v| && u[..j] == v[..j] && u[j] < v[j];
    assert ([x] + u)[..j + 1] == [x] + u[..j];
    assert ([x] + v)[..j + 1] == [x] + v[..j];
  }

  lemma LexByFirst(u: seq<int>, v: seq<int>)
    requires |u| >= 1 && |v| >= 1 && u[0] < v[0]
    ensures LexLess(u, v)
  {
    assert u[..0] == v[..0];
  }

  // --- counting

  /** Number of tuples over [lo, n) of every size 0..kk. */
  function CountUpTo(lo: int, n: int, kk: nat): nat {
    if kk == 0 then |Combs(lo, n, 0)| else CountUpTo(lo, n, kk - 1) + |Combs(lo, n, kk)|
  }

  lemma {:induction false} CountUpToPascal(lo: int, n: int, kk: nat)
    requires lo < n && kk >= 1
    ensures CountUpTo(lo, n, kk) == CountUpTo(lo + 1, n, kk - 1) + CountUpTo(lo + 1, n, kk)
  {
    if kk == 1 {
      assert |Combs(lo, n, 1)| == |Combs(lo + 1, n, 0)| + |Combs(lo + 1, n, 1)|;
    } else {
      CountUpToPascal(lo, n, kk - 1);
      if n - lo >= kk {
        assert |Combs(lo, n, kk)| == |Combs(lo + 1, n, kk - 1)| + |Combs(lo + 1, n, kk)|;
      } else {
        assert n - (lo + 1) < kk - 1;
      }
    }
  }

  /** Pascal's rule summed over a row: there are 2^(n-lo) tuples over [lo, n). */
  lemma {:induction false} CountAll(lo: int, n: int)
    requires lo <= n
    ensures CountUpTo(lo, n, n - lo) == Pow2(n - lo)
    decreases n - lo
  {
    if lo < n {
      var m := n - lo;
      CountUpToPascal(lo, n, m);
      CountAll(lo + 1, n);
      assert n - (lo + 1) < m;
      assert CountUpTo(lo + 1, n, m) == CountUpTo(lo + 1, n, m - 1);
    }
  }

  lemma {:induction false} BandsLength(n: nat, hi: int)
    requires 0 <= hi
    ensures |Bands(n, hi, 0)| == CountUpTo(0, n, hi) - 1
    decreases hi
  {
    if hi > 0 {
      BandsLength(n, hi - 1);
    }
  }

  /** Bands peel off from the top: appending the next smaller size extends the list. */
  lemma {:induction false} BandsExtend(n: nat, hi: int, lo: int)
    requires 1 <= lo <= hi
    ensures Bands(n, hi, lo - 1) == Bands(n, hi, lo) + Combs(0, n, lo)
    decreases hi - lo
  {
    if lo < hi {
      BandsExtend(n, hi - 1, lo);
    }
  }

  // --- the successor step walks the reference enumeration

  lemma {:induction false} CursorPrefixed(x: int, u: seq<int>, n: int, j: int, g: int)
    requires 0 <= g <= j < |u| && Growable(u, n, g)
    ensures Cursor([x] + u, n, j + 1) == Cursor(u, n, j) + 1
    decreases j
  {
    var t := [x] + u;
    assert t[j + 1] == u[j];
    if !Growable(u, n, j) {
      CursorPrefixed(x, u, n, j - 1, g);
    }
  }

  lemma {:induction false} CursorAtTop(t: seq<int>, n: int, j: int)
    requires 0 <= j < |t|
    requires forall i :: 1 <= i < |t| ==> t[i] == n - |t| + i
    ensures Cursor(t, n, j) == 0
    decreases j
  {
    if j > 0 {
      CursorAtTop(t, n, j - 1);
    }
  }

  /** A valid tuple none of whose entries can grow is the last one, [n-m, ..., n-1]. */
  lemma NoneGrowableIsLast(u: seq<int>, lo: int, n: int)
    requires ValidTuple(u, lo, n, |u|) && |u| >= 1
    requires forall g :: 0 <= g < |u| ==> !Growable(u, n, g)
    ensures u == Iota(n - |u|, |u|)
  {
    var m := |u|;
    forall i | 0 <= i < m
      ensures u[i] == n - m + i
    {
      assert !Growable(u, n, i);
      assert u[m - 1] < n;
      Spacing(u, i, m - 1);
    }
  }

  lemma HasGrowable(u: seq<int>, lo: int, n: int)
    requires ValidTuple(u, lo, n, |u|) && |u| >= 1 && u != Iota(n - |u|, |u|)
    ensures exists g :: 0 <= g < |u| && Growable(u, n, g)
  {
    if forall g :: 0 <= g < |u| ==> !Growable(u, n, g) {
      NoneGrowableIsLast(u, lo, n);
    }
  }

  lemma NextPrefixed(x: int, u: seq<int>, lo: int, n: int)
    requires ValidTuple(u, lo, n, |u|) && |u| >= 1 && u != Iota(n - |u|, |u|)
    ensures Next([x] + u, n) == [x] + Next(u, n)
  {
    CursorOfPrefixed(x, u, lo, n);
    AdvancePrefixed(x, u, Cursor(u, n, |u| - 1));
  }

  lemma CursorOfPrefixed(x: int, u: seq<int>, lo: int, n: int)
    requires ValidTuple(u, lo, n, |u|) && |u| >= 1 && u != Iota(n - |u|, |u|)
    ensures Cursor([x] + u, n, |u|) == Cursor(u, n, |u| - 1) + 1
  {
    HasGrowable(u, lo, n);
    var g :| 0 <= g < |u| && Growable(u, n, g);
    CursorPrefixed(x, u, n, |u| - 1, g);
  }

  lemma AdvancePrefixed(x: int, u: seq<int>, c: int)
    requires 0 <= c < |u|
    ensures Advance([x] + u, c + 1) == [x] + Advance(u, c)
  {
  }

  lemma {:induction false} CombsFirst(lo: int, n: int, k: nat)
    requires k >= 1 && n - lo >= k
    ensures |Combs(lo, n, k)| >= 1
    ensures Combs(lo, n, k)[0] == Iota(lo, k)
    decreases k
  {
    if k == 1 {
      assert Combs(lo + 1, n, 0) == [[]];
    } else {
      CombsFirst(lo + 1, n, k - 1);
    }
    CombsAt(lo, n, k, 0);
    PrefixIota(lo, k);
  }

  lemma {:induction false} CombsLast(lo: int, n: int, k: nat)
    requires k >= 1 && n - lo >= k
    ensures |Combs(lo, n, k)| >= 1
    ensures Combs(lo, n, k)[|Combs(lo, n, k)| - 1] == Iota(n - k, k)
    decreases n - lo, k, 1
  {
    if n - (lo + 1) >= k {
      CombsLastInSecondBlock(lo, n, k);
    } else {
      CombsLastInFirstBlock(lo, n, k);
    }
  }

  lemma {:induction false} CombsLastInSecondBlock(lo: int, n: int, k: nat)
    requires k >= 1 && n - (lo + 1) >= k
    ensures |Combs(lo, n, k)| >= 1
    ensures Combs(lo, n, k)[|Combs(lo, n, k)| - 1] == Iota(n - k, k)
    decreases n - lo, k, 0
  {
    CombsFirst(lo, n, k);
    CombsAt(lo, n, k, |Combs(lo, n, k)| - 1);
    CombsLast(lo + 1, n, k);
  }

  lemma {:induction false} CombsLastInFirstBlock(lo: int, n: int, k: nat)
    requires k >= 1 && n - lo == k
    ensures |Combs(lo, n, k)| >= 1
    ensures Combs(lo, n, k)[|Combs(lo, n, k)| - 1] == Iota(n - k, k)
    decreases n - lo, k, 0
  {
    CombsFirst(lo, n, k);
    CombsAt(lo, n, k, |Combs(lo, n, k)| - 1);
    assert Combs(lo + 1, n, k) == [];
    if k == 1 {
      SingletonCombs(lo + 1, n);
    } else {
      CombsLast(lo + 1, n, k - 1);
      PrefixIota(n - k, k);
    }
  }

  lemma SingletonCombs(lo: int, n: int)
    ensures Combs(lo, n, 0) == [[]]
  {
  }

  lemma PrefixIota(lo: int, k: nat)
    requires k >= 1
    ensures [lo] + Iota(lo + 1, k - 1) == Iota(lo, k)
  {
  }

  /** Inside the block of tuples starting with lo, Next steps the tail along Combs(lo + 1, n, k - 1). */
  lemma {:induction false} StepInPrefixedBlock(lo: int, n: int, k: nat, i: int)
    requires 0 <= lo && k >= 2 && n - lo >= k
    requires 0 <= i < |Combs(lo + 1, n, k - 1)| - 1
    ensures Next([lo] + Combs(lo + 1, n, k - 1)[i], n) == [lo] + Combs(lo + 1, n, k - 1)[i + 1]
    decreases n - lo, k, 0
  {
    var a := Combs(lo + 1, n, k - 1);
    CombsValidAt(lo + 1, n, k - 1, i);
    NotLastInCombs(lo + 1, n, k - 1, i);
    StepInCombs(lo + 1, n, k - 1, i);
    NextPrefixed(lo, a[i], lo + 1, n);
  }

  lemma CombsValidAt(lo: int, n: int, k: nat, i: int)
    requires 0 <= i < |Combs(lo, n, k)|
    ensures ValidTuple(Combs(lo, n, k)[i], lo, n, k)
  {
    CombsValid(lo, n, k);
  }

  /** Only the last tuple of Combs(lo, n, k) equals [n-k, ..., n-1]. */
  lemma NotLastInCombs(lo: int, n: int, k: nat, i: int)
    requires k >= 1 && n - lo >= k
    requires 0 <= i < |Combs(lo, n, k)| - 1
    ensures Combs(lo, n, k)[i] != Iota(n - k, k)
  {
    var c := Combs(lo, n, k);
    CombsLast(lo, n, k);
    CombsNoDup(lo, n, k);
    assert c[i] != c[|c| - 1];
  }

  /** From [lo, n-k+1, ..., n-1], the last tuple starting with lo, Next moves to [lo+1, ..., lo+k]. */
  lemma StepAcrossBlocks(lo: int, n: int, k: nat)
    requires k >= 1
    ensures Next([lo] + Iota(n - k + 1, k - 1), n) == Iota(lo + 1, k)
  {
    var t := [lo] + Iota(n - k + 1, k - 1);
    CursorAtTop(t, n, k - 1);
  }

  /** One step of the walk: Next takes the i-th tuple of Combs(lo, n, k) to the (i+1)-th. */
  lemma {:induction false} StepInCombs(lo: int, n: int, k: nat, i: int)
    requires 0 <= lo && k >= 1 && n - lo >= k
    requires 0 <= i < |Combs(lo, n, k)| - 1
    ensures Next(Combs(lo, n, k)[i], n) == Combs(lo, n, k)[i + 1]
    decreases n - lo, k, 2
  {
    var m := |Combs(lo + 1, n, k - 1)|;
    if i + 1 < m {
      StepInFirstBlock(lo, n, k, i);
    } else if i + 1 == m {
      StepBetweenBlocks(lo, n, k);
    } else {
      StepInSecondBlock(lo, n, k, i);
    }
  }

  lemma {:induction false} StepInFirstBlock(lo: int, n: int, k: nat, i: int)
    requires 0 <= lo && k >= 1 && n - lo >= k
    requires 0 <= i && i + 1 < |Combs(lo + 1, n, k - 1)|
    ensures i + 1 < |Combs(lo, n, k)|
    ensures Next(Combs(lo, n, k)[i], n) == Combs(lo, n, k)[i + 1]
    decreases n - lo, k, 1
  {
    assert k >= 2 by {
      assert Combs(lo + 1, n, 0) == [[]];
    }
    CombsAt(lo, n, k, i);
    CombsAt(lo, n, k, i + 1);
    StepInPrefixedBlock(lo, n, k, i);
  }

  lemma {:induction false} StepInSecondBlock(lo: int, n: int, k: nat, i: int)
    requires 0 <= lo && k >= 1 && n - lo >= k
    requires |Combs(lo + 1, n, k - 1)| <= i < |Combs(lo, n, k)| - 1
    ensures Next(Combs(lo, n, k)[i], n) == Combs(lo, n, k)[i + 1]
    decreases n - lo, k, 1
  {
    var m := |Combs(lo + 1, n, k - 1)|;
    CombsAt(lo, n, k, i);
    CombsAt(lo, n, k, i + 1);
    assert n - (lo + 1) >= k;
    StepInCombs(lo + 1, n, k, i - m);
  }

  /** Indexing into Combs: first the tuples starting with lo, then those over [lo + 1, n). */
  lemma CombsAt(lo: int, n: int, k: nat, i: int)
    requires k >= 1 && n - lo >= k && 0 <= i < |Combs(lo, n, k)|
    ensures |Combs(lo, n, k)| == |Combs(lo + 1, n, k - 1)| + |Combs(lo + 1, n, k)|
    ensures i < |Combs(lo + 1, n, k - 1)| ==> Combs(lo, n, k)[i] == [lo] + Combs(lo + 1, n, k - 1)[i]
    ensures i >= |Combs(lo + 1, n, k - 1)| ==>
      Combs(lo, n, k)[i] == Combs(lo + 1, n, k)[i - |Combs(lo + 1, n, k - 1)|]
  {
  }

  /** The last tuple starting with lo is [lo, n-k+1, ..., n-1]. */
  lemma LastOfPrefixedBlock(lo: int, n: int, k: nat)
    requires 0 <= lo && k >= 1 && n - lo >= k
    ensures |Combs(lo + 1, n, k - 1)| >= 1
    ensures Combs(lo, n, k)[|Combs(lo + 1, n, k - 1)| - 1] == [lo] + Iota(n - k + 1, k - 1)
  {
    var a := Combs(lo + 1, n, k - 1);
    if k == 1 {
      assert a == [[]];
    } else {
      CombsLast(lo + 1, n, k - 1);
    }
    CombsAt(lo, n, k, |a| - 1);
  }

  /** The first tuple starting above lo is [lo+1, ..., lo+k]. */
  lemma FirstOfSecondBlock(lo: int, n: int, k: nat)
    requires 0 <= lo && k >= 1 && n - (lo + 1) >= k
    ensures |Combs(lo + 1, n, k - 1)| < |Combs(lo, n, k)|
    ensures Combs(lo, n, k)[|Combs(lo + 1, n, k - 1)|] == Iota(lo + 1, k)
  {
    var a := Combs(lo + 1, n, k - 1);
    var b := Combs(lo + 1, n, k);
    var c := Prefixed(lo, a) + b;
    assert c == Combs(lo, n, k);
    CombsFirst(lo + 1, n, k);
    assert c[|a|] == b[0];
  }

  /** The step from the last tuple starting with lo to the first one starting with lo + 1. */
  lemma StepBetweenBlocks(lo: int, n: int, k: nat)
    requires 0 <= lo && k >= 1 && n - lo >= k
    requires |Combs(lo + 1, n, k - 1)| < |Combs(lo, n, k)|
    ensures var i := |Combs(lo + 1, n, k - 1)| - 1;
      0 <= i && Next(Combs(lo, n, k)[i], n) == Combs(lo, n, k)[i + 1]
  {
    CombsAt(lo, n, k, 0);
    assert n - (lo + 1) >= k;
    LastOfPrefixedBlock(lo, n, k);
    FirstOfSecondBlock(lo, n, k);
    StepAcrossBlocks(lo, n, k);
  }

  /**
   * Walking Next from the first tuple visits Combs(lo, n, k) in order; with
   * NextOfLastEnds this is the enumeration loop's whole run for one size.
   */
  lemma NextWalksCombs(lo: int, n: int, k: nat)
    requires 0 <= lo && k >= 1 && n - lo >= k
    ensures forall i :: 0 <= i < |Combs(lo, n, k)| - 1 ==> Next(Combs(lo, n, k)[i], n) == Combs(lo, n, k)[i + 1]
    decreases n - lo, k, 2
  {
    forall i | 0 <= i < |Combs(lo, n, k)| - 1
      ensures Next(Combs(lo, n, k)[i], n) == Combs(lo, n, k)[i + 1]
    {
      StepInCombs(lo, n, k, i);
    }
  }

  /** Next of the last tuple starts past n - k, which ends the do-while loop. */
  lemma NextOfLastEnds(n: int, k: nat)
    requires k >= 1
    ensures Next(Iota(n - k, k), n)[0] > n - k
  {
    CursorAtTop(Iota(n - k, k), n, k - 1);
    assert Cursor(Iota(n - k, k), n, k - 1) == 0;
  }

  /** The subset sums of the k-element subsets, in lexicographic order of their index tuples. */
  function SizeSums(seeds: seq<int>, k: nat): seq<int> {
    CombsValid(0, |seeds|, k);
    Sums(seeds, Combs(0, |seeds|, k))
  }

  lemma SumsConcat(seeds: seq<int>, a: seq<seq<int>>, b: seq<seq<int>>)
    requires forall i :: 0 <= i < |a| ==> Within(a[i], 0, |seeds|)
    requires forall i :: 0 <= i < |b| ==> Within(b[i], 0, |seeds|)
    ensures forall i :: 0 <= i < |a + b| ==> Within((a + b)[i], 0, |seeds|)
    ensures Sums(seeds, a + b) == Sums(seeds, a) + Sums(seeds, b)
  {
    forall i | 0 <= i < |a + b|
      ensures Within((a + b)[i], 0, |seeds|)
    {
      if i >= |a| {
        assert (a + b)[i] == b[i - |a|];
      }
    }
  }

  lemma BandSumsExtend(seeds: seq<int>, k: int)
    requires 1 <= k <= |seeds|
    ensures BandSums(seeds, |seeds|, k - 1) == BandSums(seeds, |seeds|, k) + SizeSums(seeds, k)
  {
    var n := |seeds|;
    BandsExtend(n, n, k);
    BandsValid(n, n, k);
    CombsValid(0, n, k);
    SumsConcat(seeds, Bands(n, n, k), Combs(0, n, k));
  }

  /**
   * One pass of the enumeration loop (FastMath.h:70-105) for subsets of size k,
   * with the cursor search corrected: starting from [0, ..., k-1], it adds up
   * every k-tuple in lexicographic order until the first entry passes n - k.
   */
  method SumsOfSize(seeds: seq<int>, k: nat) returns (sums: seq<int>)
    requires 1 <= k <= |seeds|
    ensures sums == SizeSums(seeds, k)
  {
    var n := |seeds|;
    ghost var cs := Combs(0, n, k);
    ghost var all := SizeSums(seeds, k);
    CombsFirst(0, n, k);
    var compIt := Iota(0, k);
    ghost var idx := 0;
    sums := [];
    while true
      invariant 0 <= idx < |cs| && compIt == cs[idx]
      invariant sums == all[..idx]
      decreases |cs| - idx
    {
      CombsValidAt(0, n, k, idx);
      sums := sums + [SubsetSum(seeds, compIt)];
      assert all[..idx + 1] == all[..idx] + [all[idx]];
      var curIncIt := Cursor(compIt, n, k - 1);
      compIt := Advance(compIt, curIncIt);
      EnumerationStep(n, k, idx);
      if !(compIt[0] <= n - k) {
        break;
      }
      idx := idx + 1;
    }
    assert all[..idx + 1] == all;
  }

  /** The loop condition after a step holds exactly when a further tuple is left. */
  lemma EnumerationStep(n: int, k: nat, idx: int)
    requires 1 <= k <= n && 0 <= idx < |Combs(0, n, k)|
    ensures idx < |Combs(0, n, k)| - 1 ==>
      Next(Combs(0, n, k)[idx], n) == Combs(0, n, k)[idx + 1] && Next(Combs(0, n, k)[idx], n)[0] <= n - k
    ensures idx == |Combs(0, n, k)| - 1 ==> Next(Combs(0, n, k)[idx], n)[0] > n - k
  {
    var cs := Combs(0, n, k);
    if idx == |cs| - 1 {
      CombsLast(0, n, k);
      NextOfLastEnds(n, k);
    } else {
      StepInCombs(0, n, k, idx);
      CombsValidAt(0, n, k, idx + 1);
      Spacing(cs[idx + 1], 0, k - 1);
    }
  }

  /**
   * getMaskCombinations with the cursor search taking its limit at the cursor
   * (FastMath.h:59-105, corrected at lines 88-92): the sums of all 2^n - 1
   * non-empty subsets of the seeds, grouped by subset size from n down to 1,
   * each size in lexicographic order of the index tuples.
   */
  method GetMaskCombinations(seeds: seq<int>) returns (combs: seq<int>, combCount: int)
    ensures combCount == Pow2(|seeds|) - 1
    ensures |combs| == combCount
    ensures combs == SubsetSums(seeds)
  {
    var n := |seeds|;
    combCount := Pow2(n) - 1;
    combs := [];
    var compCount := n;
    while compCount > 0
      invariant 0 <= compCount <= n
      invariant combs == BandSums(seeds, n, compCount)
    {
      var sums := SumsOfSize(seeds, compCount);
      BandSumsExtend(seeds, compCount);
      combs := combs + sums;
      compCount := compCount - 1;
    }
    CountAll(0, n);
    BandsLength(n, n);
  }

  /** A list with an element has a member. */
  lemma Nonempty<T>(b: seq<T>)
    requires |b| > 0
    ensures exists y :: y in b
  {
    assert b[0] in b;
  }
}
