/**
 * MAC address increments of src/ip.c: a MAC address is six octets, read as
 * a 48-bit big-endian number; macNextAddr adds one with carry and
 * macNextAddrs hands out a run of consecutive addresses.
 */
module Mac {
  import opened Base

  const MAC_ADDR_BYTES: nat := 6
  /** 2^48: the number of distinct MAC addresses. */
  const MAC_LIMIT: nat := 0x1_0000_0000_0000

  /** The six octets as a big-endian number. */
  function MacValue(octets: seq<byte>): (v: nat)
    requires |octets| == MAC_ADDR_BYTES
    ensures v < MAC_LIMIT
  {
    octets[0] as nat * 0x100_0000_0000 + octets[1] as nat * 0x1_0000_0000 + octets[2] as nat * 0x100_0000
      + octets[3] as nat * 0x1_0000 + octets[4] as nat * 0x100 + octets[5] as nat
  }

  /** 256^(6 - i): the weight of octet i - 1 in MacValue, and 2^48 past the first octet. */
  function Unit(i: nat): nat
    requires i <= MAC_ADDR_BYTES
  {
    if i == 6 then 1
    else if i == 5 then 0x100
    else if i == 4 then 0x1_0000
    else if i == 3 then 0x100_0000
    else if i == 2 then 0x1_0000_0000
    else if i == 1 then 0x100_0000_0000
    else MAC_LIMIT
  }

  /**
   * macNextAddr: the address plus one, wrapping from ff:ff:ff:ff:ff:ff to
   * all zeros; the answer is false exactly when it wrapped.
   */
  method MacNextAddr(addr: array<byte>) returns (r: bool)
    requires addr.Length == MAC_ADDR_BYTES
    modifies addr
    ensures MacValue(addr[..]) == (MacValue(old(addr[..])) + 1) % MAC_LIMIT
    ensures r <==> MacValue(old(addr[..])) + 1 < MAC_LIMIT
    ensures r <==> MacValue(addr[..]) != 0
  {
    ghost var v0 := MacValue(addr[..]);
    var i := MAC_ADDR_BYTES;
    while i > 0
      invariant 0 <= i <= MAC_ADDR_BYTES
      invariant MacValue(addr[..]) + Unit(i) == v0 + 1
    {
      ghost var before := addr[..];
      ByteIncrement(addr[i - 1]);
      addr[i - 1] := (addr[i - 1] as nat + 1) % 0x100;
      ghost var after := addr[..];
      if addr[i - 1] != 0 {
        Increment(before, after, i - 1);
        Wrap(v0, MacValue(after), false);
        return true;
      }
      Carry(before, after, i - 1);
      i := i - 1;
    }
    Wrap(v0, MacValue(addr[..]), true);
    return false;
  }

  /** The increment of a 48-bit value, with and without wrapping to zero. */
  lemma Wrap(v0: nat, v: nat, wrapped: bool)
    requires v0 < MAC_LIMIT && v < MAC_LIMIT
    requires if wrapped then v + MAC_LIMIT == v0 + 1 else v == v0 + 1
    ensures v == (v0 + 1) % MAC_LIMIT
    ensures !wrapped <==> v0 + 1 < MAC_LIMIT
    ensures !wrapped <==> v != 0
  {
  }

  /** `++` on a uint8_t: one more, or zero after 0xff. */
  lemma ByteIncrement(b: byte)
    ensures (b as nat + 1) % 0x100 == if b == 0xFF then 0 else b as nat + 1
  {
  }

  /** Adding one to octet j below 0xff adds its weight to the value. */
  lemma Increment(s: seq<byte>, t: seq<byte>, j: nat)
    requires |s| == |t| == MAC_ADDR_BYTES && j < MAC_ADDR_BYTES
    requires t[j] == s[j] as nat + 1 && forall k | 0 <= k < MAC_ADDR_BYTES && k != j :: t[k] == s[k]
    ensures MacValue(t) == MacValue(s) + Unit(j + 1)
  {
  }

  /** Wrapping octet j from 0xff to zero is a carry into octet j - 1. */
  lemma Carry(s: seq<byte>, t: seq<byte>, j: nat)
    requires |s| == |t| == MAC_ADDR_BYTES && j < MAC_ADDR_BYTES
    requires s[j] == 0xFF && t[j] == 0 && forall k | 0 <= k < MAC_ADDR_BYTES && k != j :: t[k] == s[k]
    ensures MacValue(t) + Unit(j) == MacValue(s) + Unit(j + 1)
  {
  }

  /**
   * macNextAddrs: fills the first `count` entries of `buffer` with the
   * addresses from nextAddr on, advances nextAddr past them, and answers
   * false when the run wrapped past the last address.
   */
  method MacNextAddrs(nextAddr: array<byte>, buffer: array<seq<byte>>, count: nat) returns (unwrapped: bool)
    requires nextAddr.Length == MAC_ADDR_BYTES && count <= buffer.Length
    modifies nextAddr, buffer
    ensures forall i | 0 <= i < count ::
      |buffer[i]| == MAC_ADDR_BYTES && MacValue(buffer[i]) == (MacValue(old(nextAddr[..])) + i) % MAC_LIMIT
    ensures buffer[count..] == old(buffer[count..])
    ensures MacValue(nextAddr[..]) == (MacValue(old(nextAddr[..])) + count) % MAC_LIMIT
    ensures unwrapped <==> MacValue(old(nextAddr[..])) + count < MAC_LIMIT
  {
    ghost var v := MacValue(nextAddr[..]);
    unwrapped := true;
    var i := 0;
    while i < count
      invariant 0 <= i <= count
      invariant forall k | 0 <= k < i :: |buffer[k]| == MAC_ADDR_BYTES && MacValue(buffer[k]) == (v + k) % MAC_LIMIT
      invariant buffer[count..] == old(buffer[count..])
      invariant MacValue(nextAddr[..]) == (v + i) % MAC_LIMIT
      invariant unwrapped <==> v + i < MAC_LIMIT
    {
      ghost var before := MacValue(nextAddr[..]);
      buffer[i] := nextAddr[..];
      assert MacValue(buffer[i]) == (v + i) % MAC_LIMIT;
      var r := MacNextAddr(nextAddr);
      NextInRun(v, i, before, MacValue(nextAddr[..]), r);
      if !r {
        unwrapped := false;
      }
      i := i + 1;
    }
  }

  /** One more increment continues the run: it wraps exactly when the run reaches 2^48. */
  lemma NextInRun(v: nat, i: nat, before: nat, after: nat, r: bool)
    requires before == (v + i) % MAC_LIMIT && after == (before + 1) % MAC_LIMIT
    requires r <==> before + 1 < MAC_LIMIT
    ensures after == (v + i + 1) % MAC_LIMIT
    ensures v + i < MAC_LIMIT ==> (r <==> v + i + 1 < MAC_LIMIT)
  {
  }
}
