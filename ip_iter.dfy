/**
 * The two address iterators of src/ip.c: the iterator over a subnet that
 * skips avoided subnets (ip4NewIter / ip4IterNext / ip4IterAddr), and the
 * iterator over the fragments of a subnet (ip4FragIterNext /
 * ip4FragIterSubnet).  Addresses are host-order numbers.
 */
module IpIter {
  import opened Base
  import opened Ip

  // ---------------------------------------------------------------------
  // Avoided ranges (src/ip.c:109-126)

  /** ignoreRange: the inclusive range of addresses of an avoided subnet. */
  datatype Range = Range(start: int, end: int)

  /**
   * ignoreRangeCompare: by start ascending and, on equal starts, by end
   * descending, so that of two ranges with the same start the larger is
   * skipped first.
   */
  function CompareRanges(r1: Range, r2: Range): int {
    if r1.start < r2.start then -1
    else if r1.start > r2.start then 1
    else if r1.end > r2.end then -1
    else if r1.end == r2.end then 0
    else 1
  }

  /** The comparison is a total order: equal only on equal ranges, antisymmetric, transitive. */
  lemma CompareRangesOrder(a: Range, b: Range, c: Range)
    ensures CompareRanges(a, b) == 0 <==> a == b
    ensures CompareRanges(a, b) == -CompareRanges(b, a)
    ensures CompareRanges(a, b) <= 0 && CompareRanges(b, c) <= 0 ==> CompareRanges(a, c) <= 0
    ensures CompareRanges(a, b) < 0 <==> a.start < b.start || (a.start == b.start && a.end > b.end)
  {
  }

  /** What qsort with ignoreRangeCompare leaves behind. */
  predicate Sorted(s: seq<Range>) {
    forall i, j | 0 <= i < j < |s| :: CompareRanges(s[i], s[j]) <= 0
  }

  function RangeOf(s: Subnet): Range
    requires s.prefixLen <= 32
  {
    Range(SubnetStart(s), SubnetEnd(s))
  }

  predicate ValidPrefixes(subnets: seq<Subnet>) {
    forall i | 0 <= i < |subnets| :: subnets[i].prefixLen <= 32
  }

  /** The ranges ip4NewIter fills in, one per avoided subnet, before sorting. */
  function Ranges(avoid: seq<Subnet>): (r: seq<Range>)
    requires ValidPrefixes(avoid)
    ensures |r| == |avoid|
    ensures forall i | 0 <= i < |r| :: r[i] == RangeOf(avoid[i])
  {
    seq(|avoid|, i requires 0 <= i < |avoid| => RangeOf(avoid[i]))
  }

  predicate InRange(x: int, r: Range) {
    r.start <= x <= r.end
  }

  /** An address some range covers. */
  predicate Avoided(x: int, ranges: seq<Range>) {
    exists i | 0 <= i < |ranges| :: InRange(x, ranges[i])
  }

  /** Every range is nonempty: start <= end. */
  predicate Proper(ranges: seq<Range>) {
    forall i | 0 <= i < |ranges| :: ranges[i].start <= ranges[i].end
  }

  /**
   * A sorted copy of the avoided ranges holds nonempty ranges, and every one
   * ends at or after `from` when every avoided subnet does.
   */
  lemma SortedRangesProper(avoid: seq<Subnet>, sorted: seq<Range>, from: int)
    requires ValidPrefixes(avoid) && multiset(sorted) == multiset(Ranges(avoid))
    ensures Proper(sorted)
    ensures (forall i | 0 <= i < |avoid| :: SubnetEnd(avoid[i]) >= from) ==>
      forall i | 0 <= i < |sorted| :: sorted[i].end >= from
  {
    forall i | 0 <= i < |sorted|
      ensures exists k | 0 <= k < |avoid| :: sorted[i] == RangeOf(avoid[k])
    {
      assert sorted[i] in multiset(sorted);
      assert sorted[i] in Ranges(avoid);
    }
    forall k | 0 <= k < |avoid|
      ensures RangeOf(avoid[k]).start <= RangeOf(avoid[k]).end
    {
      SubnetBounds(avoid[k]);
    }
  }

  // ---------------------------------------------------------------------
  // Iterating a subnet while skipping avoided ranges (src/ip.c:128-188)

  class Iter {
    /** The address last produced; one before the subnet start at first. */
    var currentAddr: int
    var finalAddr: int
    /** The avoided ranges, sorted by CompareRanges. */
    var ignores: seq<Range>
    /** The first range the iterator has not yet passed. */
    var currentIgnoreNum: nat

    ghost predicate Valid()
      reads this
    {
      currentIgnoreNum <= |ignores| && Sorted(ignores) && Proper(ignores)
    }

    /**
     * The iterator is on track: it is past every range before the current
     * one and still before the end of the current one.
     */
    ghost predicate OnTrack()
      reads this
      requires Valid()
    {
      && (forall j | 0 <= j < currentIgnoreNum :: ignores[j].end < currentAddr)
      && (currentIgnoreNum < |ignores| ==> currentAddr < ignores[currentIgnoreNum].end)
    }

    /**
     * ip4NewIter.  `sorted` is the array of avoided ranges after qsort: the
     * ranges of the avoided subnets in ignoreRangeCompare order.  The
     * iterator starts just before the subnet; it is on track when no
     * avoided subnet ends before the subnet starts.
     */
    constructor (subnet: Subnet, avoid: seq<Subnet>, sorted: seq<Range>)
      requires subnet.prefixLen <= 32 && ValidPrefixes(avoid)
      requires Sorted(sorted) && multiset(sorted) == multiset(Ranges(avoid))
      ensures Valid()
      ensures currentAddr == SubnetStart(subnet) - 1 && finalAddr == SubnetEnd(subnet)
      ensures ignores == sorted && currentIgnoreNum == 0
      ensures (forall i | 0 <= i < |avoid| :: SubnetEnd(avoid[i]) >= SubnetStart(subnet)) ==> OnTrack()
    {
      currentAddr := SubnetStart(subnet) - 1;
      finalAddr := SubnetEnd(subnet);
      ignores := sorted;
      currentIgnoreNum := 0;
      SortedRangesProper(avoid, sorted, SubnetStart(subnet));
    }

    /**
     * ip4IterNext.  Produces the next address that no range covers; every
     * address it steps over is covered by a range.  Once it reports the
     * end it keeps doing so.
     */
    method Next() returns (r: bool)
      requires Valid()
      modifies this
      ensures Valid() && ignores == old(ignores) && finalAddr == old(finalAddr)
      ensures old(currentAddr) >= finalAddr ==> !r && currentAddr == old(currentAddr) && currentIgnoreNum == old(currentIgnoreNum)
      ensures old(currentAddr) < finalAddr ==> old(currentAddr) < currentAddr
      ensures r ==> currentAddr <= finalAddr
      ensures !r ==> currentAddr >= finalAddr
      ensures forall x | old(currentAddr) < x < currentAddr :: Avoided(x, ignores)
      ensures old(OnTrack()) ==> OnTrack()
      ensures old(OnTrack()) && r ==> !Avoided(currentAddr, ignores)
    {
      if currentAddr >= finalAddr {
        return false;
      }
      currentAddr := currentAddr + 1;
      while true
        invariant Valid() && ignores == old(ignores) && finalAddr == old(finalAddr)
        invariant old(currentAddr) < currentAddr
        invariant forall x | old(currentAddr) < x < currentAddr :: Avoided(x, ignores)
        invariant old(OnTrack()) ==> Passed(ignores, currentIgnoreNum, currentAddr)
        decreases |ignores| - currentIgnoreNum
      {
        var insideIgnore := currentIgnoreNum < |ignores| && ignores[currentIgnoreNum].start <= currentAddr <= ignores[currentIgnoreNum].end;
        if !insideIgnore {
          break;
        }
        SkipCovered(ignores, currentIgnoreNum, old(currentAddr), currentAddr);
        currentAddr := ignores[currentIgnoreNum].end + 1;
        currentIgnoreNum := currentIgnoreNum + 1;
        ghost var skippedTo := currentAddr;
        while currentIgnoreNum < |ignores| && currentAddr > ignores[currentIgnoreNum].end
          invariant currentIgnoreNum <= |ignores|
          invariant ignores == old(ignores) && finalAddr == old(finalAddr) && currentAddr == skippedTo
          invariant forall j | 0 <= j < currentIgnoreNum :: ignores[j].end < currentAddr || !old(OnTrack())
          decreases |ignores| - currentIgnoreNum
        {
          currentIgnoreNum := currentIgnoreNum + 1;
        }
      }
      if old(OnTrack()) {
        NotAvoided(ignores, currentIgnoreNum, currentAddr);
      }
      return currentAddr <= finalAddr;
    }

    /** ip4IterAddr: the current address, converted to 32 bits. */
    function Addr(): (a: u32)
      reads this
      ensures 0 <= currentAddr < U32_LIMIT ==> a == currentAddr
    {
      currentAddr % U32_LIMIT
    }
  }

  /** Past every range before `num`, and not past the end of range `num`. */
  ghost predicate Passed(ranges: seq<Range>, num: nat, x: int) {
    && (forall j | 0 <= j < num && j < |ranges| :: ranges[j].end < x)
    && (num < |ranges| ==> x <= ranges[num].end)
  }

  /** Jumping from inside range `num` to just past its end steps over covered addresses only. */
  lemma SkipCovered(ranges: seq<Range>, num: nat, from: int, x: int)
    requires num < |ranges| && ranges[num].start <= x <= ranges[num].end
    requires forall y | from < y < x :: Avoided(y, ranges)
    ensures forall y | from < y < ranges[num].end + 1 :: Avoided(y, ranges)
  {
    forall y | from < y < ranges[num].end + 1
      ensures Avoided(y, ranges)
    {
      if y >= x {
        assert InRange(y, ranges[num]);
      }
    }
  }

  /**
   * An address past every range before `num` and before the start of
   * range `num` is covered by no range, since later ranges start no
   * earlier.
   */
  lemma NotAvoided(ranges: seq<Range>, num: nat, x: int)
    requires Sorted(ranges) && Proper(ranges)
    requires Passed(ranges, num, x)
    requires !(num < |ranges| && ranges[num].start <= x <= ranges[num].end)
    ensures !Avoided(x, ranges)
    ensures num <= |ranges| ==> (forall j | 0 <= j < num :: ranges[j].end < x) && (num < |ranges| ==> x < ranges[num].end)
  {
    forall i | 0 <= i < |ranges|
      ensures !InRange(x, ranges[i])
    {
      if i > num {
        assert CompareRanges(ranges[num], ranges[i]) <= 0;
      }
    }
  }

  // ---------------------------------------------------------------------
  // Iterating the fragments of a subnet (src/ip.c:197-252)

  function Min(a: nat, b: nat): nat {
    if a <= b then a else b
  }

  class FragIter {
    var first: bool
    var currentAddr: u32
    var smallIncrement: u32
    var smallPrefixLen: byte
    var largeFragmentsRemaining: u32
    var fragmentsRemaining: u32
    /** The first fragment's address, the number of large and of all fragments. */
    ghost var base: u32
    ghost var largeFragments: nat
    ghost var total: nat
    /** How many times Next has answered true, and how many times it has advanced. */
    ghost var produced: nat
    ghost var steps: nat

    ghost predicate Valid()
      reads this
    {
      && 1 <= smallPrefixLen <= 32 && smallIncrement == Pow2(32 - smallPrefixLen)
      && fragmentsRemaining <= total
      && (first ==> produced == 0 && steps == 0 && fragmentsRemaining == total)
      && (!first ==> steps + fragmentsRemaining == total && produced == (if fragmentsRemaining > 0 then steps + 1 else steps))
      && largeFragmentsRemaining == largeFragments - Min(steps, largeFragments)
      && currentAddr == (base + smallIncrement * Offset(steps, largeFragments)) % U32_LIMIT
    }

    /**
     * The initial state ip4FragmentSubnet sets up once it has chosen the
     * small fragment size 2^smallerPow2 and the number of large fragments.
     */
    constructor (subnet: Subnet, fragmentCount: u32, smallerPow2: nat, largeFragments: u32)
      requires smallerPow2 < 32
      ensures Valid() && first && produced == 0
      ensures currentAddr == subnet.addr && base == subnet.addr
      ensures smallIncrement == Pow2(smallerPow2) && smallPrefixLen == 32 - smallerPow2
      ensures largeFragmentsRemaining == largeFragments && fragmentsRemaining == fragmentCount
      ensures this.largeFragments == largeFragments && total == fragmentCount
    {
      Pow2Mono(smallerPow2, 31);
      Pow2Mono(31, 32);
      first := true;
      currentAddr := subnet.addr;
      smallIncrement := Pow2(smallerPow2);
      smallPrefixLen := 32 - smallerPow2;
      largeFragmentsRemaining := largeFragments;
      fragmentsRemaining := fragmentCount;
      base := subnet.addr;
      this.largeFragments := largeFragments;
      total := fragmentCount;
      produced := 0;
      steps := 0;
    }

    /**
     * ip4FragIterNext.  Answers true exactly `total` times; the first call
     * stays on the first fragment, every later one advances by two small
     * fragments while large ones remain and by one small fragment after.
     */
    method Next() returns (r: bool)
      requires Valid()
      modifies this
      ensures Valid()
      ensures smallIncrement == old(smallIncrement) && smallPrefixLen == old(smallPrefixLen)
      ensures base == old(base) && largeFragments == old(largeFragments) && total == old(total)
      ensures r <==> old(produced) < total
      ensures produced == old(produced) + (if r then 1 else 0)
      ensures old(first) || old(fragmentsRemaining) == 0 ==> currentAddr == old(currentAddr)
      ensures !old(first) && old(fragmentsRemaining) > 0 ==>
        currentAddr == (old(currentAddr) + smallIncrement * (if old(largeFragmentsRemaining) > 0 then 2 else 1)) % U32_LIMIT
    {
      if fragmentsRemaining == 0 {
        return false;
      }
      if first {
        first := false;
        produced := 1;
        return true;
      }
      var isLarge := largeFragmentsRemaining > 0;
      if isLarge {
        largeFragmentsRemaining := largeFragmentsRemaining - 1;
      }
      AdvanceAddr(base, smallIncrement, steps, largeFragments, currentAddr);
      currentAddr := (currentAddr + smallIncrement * (if isLarge then 2 else 1)) % U32_LIMIT;
      steps := steps + 1;
      fragmentsRemaining := fragmentsRemaining - 1;
      r := fragmentsRemaining > 0;
      if r {
        produced := produced + 1;
      }
    }

    /**
     * ip4FragIterSubnet: the current fragment, one prefix bit shorter while
     * large fragments remain, so that it spans exactly the distance the
     * next call advances.
     */
    function Subnet(): (s: Ip.Subnet)
      reads this
      requires Valid()
      ensures s.addr == currentAddr && s.prefixLen <= 32
      ensures Pow2(32 - s.prefixLen) == smallIncrement * (if largeFragmentsRemaining > 0 then 2 else 1)
    {
      Ip.Subnet(currentAddr, if largeFragmentsRemaining > 0 then (smallPrefixLen - 1) % 0x100 else smallPrefixLen)
    }
  }

  /** Where fragment `steps` starts, in small fragments from the first: large fragments count twice. */
  function Offset(steps: nat, largeFragments: nat): nat {
    steps + Min(steps, largeFragments)
  }

  /** One more step moves the start by one small fragment, or two while large fragments remain. */
  lemma AdvanceAddr(base: u32, inc: nat, steps: nat, large: nat, addr: u32)
    requires addr == (base + inc * Offset(steps, large)) % U32_LIMIT
    ensures (addr + inc * (if steps < large then 2 else 1)) % U32_LIMIT == (base + inc * Offset(steps + 1, large)) % U32_LIMIT
  {
    var d := if steps < large then 2 else 1;
    assert Offset(steps + 1, large) == Offset(steps, large) + d;
    MulAdd(inc, Offset(steps, large), d);
    ModAdd(base + inc * Offset(steps, large), inc * d, U32_LIMIT);
  }

  lemma MulAdd(a: nat, b: nat, c: nat)
    ensures a * (b + c) == a * b + a * c
  {
  }

  lemma ModAdd(a: nat, b: nat, n: nat)
    requires n > 0
    ensures (a % n + b) % n == (a + b) % n
  {
    var q := a / n;
    var q' := (a % n + b) / n;
    var r := (a % n + b) % n;
    assert a == q * n + a % n;
    assert a % n + b == q' * n + r;
    MulAdd(n, q, q');
    assert a + b == (q + q') * n + r;
    ModUnique(a + b, n, q + q', r);
  }
}
