/**
 * IPv4 and MAC address arithmetic (src/ip.c): CIDR masks, the first and
 * last address and the size of a subnet, CIDR parsing, the address iterator
 * that skips avoided subnets, the subnet-fragment iterator, and MAC address
 * increments.
 *
 * Addresses are held in host order.  The C code keeps them in network order
 * and converts with ntohl/htonl where it compares or counts; the byte swap
 * commutes with &, | and ~, so every mask below is the same in either order.
 */
module Ip {
  import opened Base
  import opened CText

  /** An IPv4 subnet: an address (host order) and a prefix length. */
  datatype Subnet = Subnet(addr: u32, prefixLen: byte)

  // ---------------------------------------------------------------------
  // Bitwise operations on the low `w` bits of naturals

  function Or(a: nat, b: nat, w: nat): (r: nat)
    ensures r < Pow2(w)
  {
    if w == 0 then 0 else 2 * Or(a / 2, b / 2, w - 1) + (if a % 2 == 1 || b % 2 == 1 then 1 else 0)
  }

  function And(a: nat, b: nat, w: nat): (r: nat)
    ensures r < Pow2(w)
  {
    if w == 0 then 0 else 2 * And(a / 2, b / 2, w - 1) + (if a % 2 == 1 && b % 2 == 1 then 1 else 0)
  }

  function Not(a: nat, w: nat): (r: nat)
    ensures r < Pow2(w)
  {
    if w == 0 then 0 else 2 * Not(a / 2, w - 1) + (1 - a % 2)
  }

  // ---------------------------------------------------------------------
  // Masks, bounds and size of a subnet (src/ip.c:72-92)

  /** ip4HostMask: the low 32 - p bits set. */
  function HostMask(p: nat): (r: u32)
    requires p <= 32
  {
    Pow2Mono(32 - p, 32);
    Pow2(32 - p) - 1
  }

  /** ip4SubnetMask: the complement of the host mask. */
  function SubnetMask(p: nat): (r: u32)
    requires p <= 32
  {
    Pow2Mono(32 - p, 32);
    Not(HostMask(p), 32)
  }

  function SubnetStart(s: Subnet): u32 {
    s.addr
  }

  /** ip4SubnetEnd: the address with every host bit set. */
  function SubnetEnd(s: Subnet): u32
    requires s.prefixLen <= 32
  {
    Pow2Mono(0, 32);
    Or(s.addr, HostMask(s.prefixLen), 32)
  }

  /**
   * ip4SubnetSize: 2^(32 - p) addresses, two fewer (network and broadcast
   * address) when asked and more than two remain.  The shift `1U << 32` of
   * a /0 prefix is undefined in C, so p is at least 1.
   */
  function SubnetSize(s: Subnet, excludeReserved: bool): (r: u32)
    requires 1 <= s.prefixLen <= 32
    ensures r == if excludeReserved && Pow2(32 - s.prefixLen) > 2 then Pow2(32 - s.prefixLen) - 2 else Pow2(32 - s.prefixLen)
  {
    Pow2Mono(32 - s.prefixLen, 31);
    assert Pow2(31) < U32_LIMIT;
    var count := Pow2(32 - s.prefixLen);
    if excludeReserved && count > 2 then count - 2 else count
  }

  lemma {:induction false} Pow2Mono(a: nat, b: nat)
    requires a <= b
    ensures Pow2(a) <= Pow2(b) && Pow2(32) == U32_LIMIT
    decreases b
  {
    Pow2Word();
    if a < b {
      Pow2Mono(a, b - 1);
    }
  }

  lemma Pow2Word()
    ensures Pow2(32) == U32_LIMIT
  {
    assert Pow2(4) == 0x10;
    assert Pow2(8) == 0x100;
    assert Pow2(12) == 0x1000;
    assert Pow2(16) == 0x1_0000;
    assert Pow2(20) == 0x10_0000;
    assert Pow2(24) == 0x100_0000;
    assert Pow2(28) == 0x1000_0000;
  }

  /** The subnet mask keeps the top p bits: it is 2^32 - 2^(32 - p). */
  lemma MaskComplement(p: nat)
    requires p <= 32
    ensures SubnetMask(p) == Pow2(32) - Pow2(32 - p)
    ensures SubnetMask(p) + HostMask(p) == Pow2(32) - 1
  {
    Pow2Mono(32 - p, 32);
    NotValue(HostMask(p), 32);
  }

  /** The low k bits of a, read bit by bit: a modulo 2^k (LowMod). */
  function Low(a: nat, k: nat): (r: nat)
    ensures r < Pow2(k)
  {
    if k == 0 then 0 else 2 * Low(a / 2, k - 1) + a % 2
  }

  lemma {:induction false} LowMod(a: nat, k: nat)
    ensures Low(a, k) == a % Pow2(k)
    decreases k
  {
    if k > 0 {
      LowMod(a / 2, k - 1);
      ModPow2Split(a, k);
    }
  }

  /** A number below 2^w is its own low w bits. */
  lemma {:induction false} LowAll(a: nat, w: nat)
    requires a < Pow2(w)
    ensures Low(a, w) == a
    decreases w
  {
    if w > 0 {
      LowAll(a / 2, w - 1);
    }
  }

  /** Taking away the low k bits leaves none. */
  lemma {:induction false} LowRoundDown(a: nat, k: nat)
    ensures Low(a, k) <= a
    ensures Low(a - Low(a, k), k) == 0
    decreases k
  {
    if k > 0 {
      LowRoundDown(a / 2, k - 1);
      var b := a - Low(a, k);
      assert b == 2 * (a / 2 - Low(a / 2, k - 1));
      assert b / 2 == a / 2 - Low(a / 2, k - 1) && b % 2 == 0;
    }
  }

  /** Complementing the low w bits of a smaller number is subtracting it from 2^w - 1. */
  lemma {:induction false} NotValue(a: nat, w: nat)
    requires a < Pow2(w)
    ensures Not(a, w) == Pow2(w) - 1 - a
    decreases w
  {
    if w > 0 {
      NotValue(a / 2, w - 1);
    }
  }

  /** Bit by bit, (x | y) + (x & y) == x + y. */
  lemma {:induction false} OrAndSum(a: nat, b: nat, w: nat)
    ensures Or(a, b, w) + And(a, b, w) == Low(a, w) + Low(b, w)
    decreases w
  {
    if w > 0 {
      OrAndSum(a / 2, b / 2, w - 1);
    }
  }

  /** Bit by bit, (x & ~y) + (x & y) == x. */
  lemma {:induction false} AndNotSum(a: nat, b: nat, w: nat)
    ensures And(a, Not(b, w), w) + And(a, b, w) == Low(a, w)
    decreases w
  {
    if w > 0 {
      var n := Not(b, w);
      assert n / 2 == Not(b / 2, w - 1) && n % 2 == 1 - b % 2;
      AndNotSum(a / 2, b / 2, w - 1);
    }
  }

  /** And with a low mask of k ones keeps the low k bits. */
  lemma {:induction false} AndLowOnes(a: nat, k: nat, w: nat)
    requires k <= w
    ensures And(a, Pow2(k) - 1, w) == Low(a, k)
    decreases w
  {
    if k == 0 {
      AndZero(a, w);
    } else {
      assert (Pow2(k) - 1) / 2 == Pow2(k - 1) - 1 && (Pow2(k) - 1) % 2 == 1;
      AndLowOnes(a / 2, k - 1, w - 1);
    }
  }

  lemma {:induction false} AndZero(a: nat, w: nat)
    ensures And(a, 0, w) == 0
    decreases w
  {
    if w > 0 {
      AndZero(a / 2, w - 1);
    }
  }

  /** The remainder modulo 2^k, bit by bit: the lowest bit and twice the remainder of the rest modulo 2^(k - 1). */
  lemma ModPow2Split(a: nat, k: nat)
    requires k >= 1
    ensures a % Pow2(k) == 2 * ((a / 2) % Pow2(k - 1)) + a % 2
  {
    var m := Pow2(k - 1);
    var q := (a / 2) / m;
    var r := (a / 2) % m;
    assert a / 2 == q * m + r;
    Double(q, m);
    assert a == q * (2 * m) + (2 * r + a % 2);
    ModUnique(a, 2 * m, q, 2 * r + a % 2);
  }

  lemma Double(q: nat, m: nat)
    ensures 2 * (q * m) == q * (2 * m)
  {
  }

  /**
   * What the masks do to an address, as arithmetic on its k = 32 - p host
   * bits: `& hostMask` keeps them, `& subnetMask` clears them, and
   * `| hostMask` sets them.
   */
  lemma AddrMasks(a: u32, p: nat)
    requires p <= 32
    ensures And(a, HostMask(p), 32) == Low(a, 32 - p)
    ensures And(a, SubnetMask(p), 32) == a - Low(a, 32 - p)
    ensures Or(a, HostMask(p), 32) == a - Low(a, 32 - p) + HostMask(p)
  {
    var k := 32 - p;
    Pow2Mono(k, 32);
    var h := HostMask(p);
    assert h == Pow2(k) - 1;
    AndLowOnes(a, k, 32);
    LowAll(a, 32);
    LowAll(h, 32);
    AndNotSum(a, h, 32);
    OrAndSum(a, h, 32);
  }

  /**
   * The last address of a subnet is its first address with the host bits
   * set: with the host bits of the address cleared, the subnet runs from
   * the block start to the block start plus the host mask.
   */
  lemma SubnetBounds(s: Subnet)
    requires s.prefixLen <= 32
    ensures SubnetStart(s) <= SubnetEnd(s)
    ensures SubnetEnd(s) == And(s.addr, SubnetMask(s.prefixLen), 32) + HostMask(s.prefixLen)
  {
    AddrMasks(s.addr, s.prefixLen);
  }

  /** A subnet whose host bits are clear. */
  predicate Aligned(s: Subnet)
    requires s.prefixLen <= 32
  {
    And(s.addr, HostMask(s.prefixLen), 32) == 0
  }

  /** The host bits are clear exactly when the address is a multiple of the subnet's size. */
  lemma AlignedMultiple(s: Subnet)
    requires s.prefixLen <= 32
    ensures Aligned(s) <==> s.addr % Pow2(32 - s.prefixLen) == 0
  {
    AddrMasks(s.addr, s.prefixLen);
    LowMod(s.addr, 32 - s.prefixLen);
  }

  /**
   * For a subnet with the host bits clear, the addresses from start to end
   * are exactly as many as ip4SubnetSize counts.
   */
  lemma AlignedSize(s: Subnet)
    requires 1 <= s.prefixLen <= 32 && Aligned(s)
    ensures SubnetEnd(s) - SubnetStart(s) + 1 == SubnetSize(s, false)
  {
    AddrMasks(s.addr, s.prefixLen);
  }

  // ---------------------------------------------------------------------
  // CIDR parsing (src/ip.c:41-70)

  /**
   * ip4GetSubnet: the text before the first '/' is an address (read by
   * `parseAddr`, the C library's inet_pton), the text after it a decimal
   * prefix length read by strtol that must use up the rest of the string
   * and lie in 0..32.  The host bits of the address are cleared.
   */
  function GetSubnet(str: string, parseAddr: string -> Option<u32>): (r: Option<Subnet>)
    ensures Find(str, '/').None? ==> r.None?
    ensures r.Some? ==> r.value.prefixLen <= 32 && Aligned(r.value)
  {
    match Find(str, '/')
    case None => None
    case Some(slash) =>
      match parseAddr(str[..slash])
      case None => None
      case Some(a) =>
        var suffix := str[slash + 1..];
        var (prefixLen, end) := StrToL(suffix);
        if end == 0 || end != |suffix| || prefixLen < 0 || prefixLen > 32 then None
        else
          ClearedValue(a, prefixLen);
          Some(Subnet(Cleared(a, prefixLen), prefixLen))
  }

  /** `addr & ip4SubnetMask(p)`: the address with its host bits cleared. */
  function Cleared(a: u32, p: nat): (r: u32)
    requires p <= 32
  {
    Pow2Word();
    And(a, SubnetMask(p), 32)
  }

  /** Clearing the host bits takes away the low 32 - p bits and leaves an aligned subnet. */
  lemma ClearedValue(a: u32, p: nat)
    requires p <= 32
    ensures Cleared(a, p) == a - Low(a, 32 - p)
    ensures Aligned(Subnet(Cleared(a, p), p))
    ensures Aligned(Subnet(a, p)) ==> Cleared(a, p) == a
  {
    var c := Cleared(a, p);
    AddrMasks(a, p);
    LowRoundDown(a, 32 - p);
    AlignedLow(Subnet(c, p));
    AlignedLow(Subnet(a, p));
  }

  /** The host bits are clear exactly when the low 32 - p bits are zero. */
  lemma AlignedLow(s: Subnet)
    requires s.prefixLen <= 32
    ensures Aligned(s) <==> Low(s.addr, 32 - s.prefixLen) == 0
  {
    AddrMasks(s.addr, s.prefixLen);
  }

  /**
   * There is no subnet without a '/', when the address before the first
   * '/' does not parse, or when the prefix length is not a whole decimal
   * number in 0..32.
   */
  lemma GetSubnetRejects(str: string, parseAddr: string -> Option<u32>)
    ensures '/' !in str ==> GetSubnet(str, parseAddr).None?
    ensures forall i | 0 <= i < |str| && str[i] == '/' && '/' !in str[..i] ::
      && (parseAddr(str[..i]).None? ==> GetSubnet(str, parseAddr).None?)
      && (StrToL(str[i + 1..]).1 != |str| - i - 1 ==> GetSubnet(str, parseAddr).None?)
      && (!(0 <= StrToL(str[i + 1..]).0 <= 32) ==> GetSubnet(str, parseAddr).None?)
  {
    FindFirstOccurrence(str, '/');
    forall i | 0 <= i < |str| && str[i] == '/' && '/' !in str[..i]
      ensures Find(str, '/') == Some(i)
    {
      FindFirst(str, '/', i);
    }
  }

  /**
   * Reading back the text of a subnet: an address text the parser accepts,
   * '/', and the decimal prefix length give back the subnet, when its host
   * bits are clear.
   */
  lemma GetSubnetRoundTrip(addrText: string, s: Subnet, parseAddr: string -> Option<u32>)
    requires '/' !in addrText && parseAddr(addrText) == Some(s.addr)
    requires s.prefixLen <= 32 && Aligned(s)
    ensures GetSubnet(addrText + "/" + Dec(s.prefixLen), parseAddr) == Some(s)
  {
    var str := addrText + "/" + Dec(s.prefixLen);
    FindAfter(addrText, "/" + Dec(s.prefixLen), '/');
    assert str == addrText + ("/" + Dec(s.prefixLen));
    assert str[..|addrText|] == addrText;
    assert str[|addrText| + 1..] == Dec(s.prefixLen);
    StrToLDec(s.prefixLen);
    ClearedValue(s.addr, s.prefixLen);
  }

  /** The first `c` of `a + b` is in `b` when `a` holds none. */
  lemma {:induction false} FindAfter(a: string, b: string, c: char)
    requires c !in a && |b| > 0 && b[0] == c
    ensures Find(a + b, c) == Some(|a|)
    decreases |a|
  {
    if a != [] {
      assert (a + b)[1..] == a[1..] + b;
      FindAfter(a[1..], b, c);
    }
  }
}
