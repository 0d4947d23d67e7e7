/**
 * The text the switch module hands to `ovs-ofctl`: the `%02x` renderings of
 * addresses, macAddrToString's MAC format, and the OpenFlow rules built by
 * ovsAddIpFlow (both generations build the same one), ovsAddArpResponse and
 * ovsArpOnly.  Rules are assembled in the context's action buffer by
 * successive `flexBufferPrintf` calls, each followed by `--actionLen` so the
 * next piece overwrites the previous terminator; `Concat` is that step.
 */
module OvsText {
  import opened Base
  import opened CText
  import opened FlexBuffer

  const IP4_ADDR_BUFLEN: nat := 3 * 4 + 3 + 1
  const IP4_CIDR_BUFLEN: nat := IP4_ADDR_BUFLEN + 1 + 2 + 1
  const MAC_ADDR_BYTES: nat := 6
  const MAC_ADDR_BUFLEN: nat := 2 * MAC_ADDR_BYTES + 5 + 1

  // ---------------------------------------------------------------------
  // Lower-case hex
  // ---------------------------------------------------------------------

  /** The lower-case hex digit of a nibble, as `%x` prints it. */
  function HexDigit(d: nat): (c: char)
    requires d < 16
    ensures c != '\0'
  {
    if d < 10 then ('0' as int + d) as char else ('a' as int + d - 10) as char
  }

  /** The value of one lower-case hex digit, None for any other character. */
  function HexValue(c: char): (r: Option<nat>)
    ensures r.Some? ==> r.value < 16
  {
    if '0' <= c <= '9' then Some(c as int - '0' as int)
    else if 'a' <= c <= 'f' then Some(c as int - 'a' as int + 10)
    else None
  }

  lemma HexDigitValue(d: nat)
    requires d < 16
    ensures HexValue(HexDigit(d)) == Some(d)
  {
  }

  /** `%02x` of one byte: two lower-case digits, the high nibble first. */
  function Hex2(b: byte): (s: string)
    ensures |s| == 2
  {
    [HexDigit(b / 16), HexDigit(b % 16)]
  }

  /** Character i of the `%02x` renderings of the octets: digit i % 2 of octet i / 2. */
  function HexChar(octets: seq<byte>, i: nat): char
    requires i < 2 * |octets|
  {
    var b := octets[i / 2];
    if i % 2 == 0 then HexDigit(b / 16) else HexDigit(b % 16)
  }

  /** The `%02x` renderings of the octets, written one after the other. */
  function HexOf(octets: seq<byte>): (s: string)
    ensures |s| == 2 * |octets|
  {
    seq(2 * |octets|, i requires 0 <= i < 2 * |octets| => HexChar(octets, i))
  }

  predicate AllHexDigits(s: string) {
    forall i | 0 <= i < |s| :: HexValue(s[i]).Some?
  }

  /** Reading a hex string back, two digits per octet; None for an odd length or a non-digit. */
  function ParseHex(s: string): (r: Option<seq<byte>>)
    ensures r.Some? ==> 2 * |r.value| == |s|
  {
    if |s| % 2 == 1 || !AllHexDigits(s) then None
    else Some(seq(|s| / 2, k requires 0 <= k < |s| / 2 => HexValue(s[2 * k]).value * 16 + HexValue(s[2 * k + 1]).value))
  }

  /** Rendering and reading back are inverse: every octet survives the hex string. */
  lemma ParseHexOf(octets: seq<byte>)
    ensures ParseHex(HexOf(octets)) == Some(octets)
  {
    var s := HexOf(octets);
    HexOfDigits(octets);
    var r := ParseHex(s).value;
    forall k | 0 <= k < |octets|
      ensures r[k] == octets[k]
    {
      HexOfOctet(octets, k);
    }
    assert r == octets;
  }

  lemma HexOfDigits(octets: seq<byte>)
    ensures AllHexDigits(HexOf(octets))
  {
    var s := HexOf(octets);
    forall i | 0 <= i < |s|
      ensures HexValue(s[i]).Some?
    {
      HexDigitValue(if i % 2 == 0 then octets[i / 2] / 16 else octets[i / 2] % 16);
    }
  }

  /** The two digits at 2k and 2k + 1 of the rendering read back as octet k. */
  lemma HexOfOctet(octets: seq<byte>, k: nat)
    requires k < |octets|
    ensures var s := HexOf(octets);
      HexValue(s[2 * k]).value * 16 + HexValue(s[2 * k + 1]).value == octets[k]
  {
    var s := HexOf(octets);
    var b := octets[k];
    assert (2 * k) / 2 == k && (2 * k) % 2 == 0;
    assert (2 * k + 1) / 2 == k && (2 * k + 1) % 2 == 1;
    assert s[2 * k] == HexDigit(b / 16) && s[2 * k + 1] == HexDigit(b % 16);
    HexDigitValue(b / 16);
    HexDigitValue(b % 16);
  }

  /** Byte i of a 32-bit value: (ip >> 8i) & 0xFF, the order ovsAddArpResponse renders. */
  function IpBytes(ip: u32): (r: seq<byte>)
    ensures |r| == 4
  {
    [ip % 0x100, ip / 0x100 % 0x100, ip / 0x1_0000 % 0x100, ip / 0x100_0000 % 0x100]
  }

  /** The bytes, least significant first, put back together give the value: no bit is lost. */
  lemma IpBytesValue(ip: u32)
    ensures var b := IpBytes(ip);
      b[0] as nat + 0x100 * b[1] as nat + 0x1_0000 * b[2] as nat + 0x100_0000 * b[3] as nat == ip
  {
    var q1 := ip / 0x100;
    var q2 := q1 / 0x100;
    var q3 := q2 / 0x100;
    assert ip / 0x1_0000 == q2 by { DivDiv(ip, 0x100, 0x100); }
    assert ip / 0x100_0000 == q3 by { DivDiv(ip, 0x1_0000, 0x100); }
    assert q3 < 0x100;
  }

  lemma DivDiv(a: nat, b: nat, c: nat)
    requires b > 0 && c > 0
    ensures a / b / c == a / (b * c)
  {
    var q := a / b / c;
    var r := a / b % c;
    assert a / b == q * c + r;
    assert a == (q * c + r) * b + a % b;
    assert a == q * (b * c) + (r * b + a % b);
    assert r * b + a % b < b * c by {
      assert r * b <= (c - 1) * b;
    }
    ModUnique(a, b * c, q, r * b + a % b);
  }

  /** macAddrToString: the six octets as `%02x`, separated by colons. */
  function MacText(mac: seq<byte>): (s: string)
    requires |mac| == MAC_ADDR_BYTES
    ensures |s| == 17 && |s| < MAC_ADDR_BUFLEN
  {
    Hex2(mac[0]) + ":" + Hex2(mac[1]) + ":" + Hex2(mac[2]) + ":" + Hex2(mac[3]) + ":" + Hex2(mac[4]) + ":" + Hex2(mac[5])
  }

  // ---------------------------------------------------------------------
  // Decimal lengths
  // ---------------------------------------------------------------------

  /** A 32-bit value prints in at most ten digits. */
  lemma DecU32(n: u32)
    ensures |Dec(n)| <= 10
  {
    DecBelow(n, 10);
  }

  function Pow10(k: nat): (r: nat)
    ensures r >= 1
  {
    if k == 0 then 1 else 10 * Pow10(k - 1)
  }

  lemma {:induction false} DecBelow(n: nat, k: nat)
    requires k >= 1 && n < Pow10(k)
    ensures |Dec(n)| <= k
  {
    if n >= 10 {
      assert k >= 2;
      DecBelow(n / 10, k - 1);
    }
  }

  // ---------------------------------------------------------------------
  // Rules
  // ---------------------------------------------------------------------

  /** An optional `, key=value` part: present iff the value is given. */
  function Part(key: string, value: Option<string>): (s: string)
    requires key != []
    ensures value.None? <==> s == []
  {
    if value.Some? then key + value.value else []
  }

  /** The input port of the match: given only when nonzero. */
  function InPort(inPort: u32): (s: Option<string>)
    ensures s.Some? <==> inPort > 0
  {
    if inPort > 0 then Some(Dec(inPort)) else None
  }

  /** The MAC rendering of an optional address. */
  function MacPart(mac: Option<seq<byte>>): (s: Option<string>)
    requires MacGiven(mac)
    ensures s.Some? <==> mac.Some?
  {
    if mac.Some? then Some(MacText(mac.value)) else None
  }

  /** The match of the IP rule: the priority, then the input port, source and destination subnets when given. */
  function MatchText(priority: u32, inPort: u32, srcNet: Option<string>, dstNet: Option<string>): string {
    "ip, priority=" + Dec(priority) + Part(", in_port=", InPort(inPort)) + Part(", nw_src=", srcNet) + Part(", nw_dst=", dstNet)
  }

  /** The actions of the IP rule: the MAC rewrites when given (as rendered texts), then the output port. */
  function ActionText(srcMacText: Option<string>, dstMacText: Option<string>, outPort: u32): string {
    Part(", mod_dl_src=", srcMacText) + Part(", mod_dl_dst=", dstMacText) + (", output:" + Dec(outPort))
  }

  /**
   * The IP rule of ovsAddIpFlow: the match, `, actions=`, then the actions.
   * `srcNet` and `dstNet` are the texts ip4SubnetToString produces.
   */
  function IpFlowText(priority: u32, inPort: u32, srcNet: Option<string>, dstNet: Option<string>,
                      newSrcMac: Option<seq<byte>>, newDstMac: Option<seq<byte>>, outPort: u32): string
    requires MacGiven(newSrcMac) && MacGiven(newDstMac)
  {
    MatchText(priority, inPort, srcNet, dstNet) + ", actions=" + ActionText(MacPart(newSrcMac), MacPart(newDstMac), outPort)
  }

  /** What the subnet formatter may write: a C string shorter than its buffer. */
  predicate SubnetText(t: Option<string>) {
    t.Some? ==> '\0' !in t.value && |t.value| < IP4_CIDR_BUFLEN
  }

  /** An optional MAC address of the right width. */
  predicate MacGiven(mac: Option<seq<byte>>) {
    mac.Some? ==> |mac.value| == MAC_ADDR_BYTES
  }

  /** The IP rule is a C string: no NUL inside, so the command sees all of it. */
  lemma IpFlowTextNoNul(priority: u32, inPort: u32, srcNet: Option<string>, dstNet: Option<string>,
                        newSrcMac: Option<seq<byte>>, newDstMac: Option<seq<byte>>, outPort: u32)
    requires SubnetText(srcNet) && SubnetText(dstNet) && MacGiven(newSrcMac) && MacGiven(newDstMac)
    ensures '\0' !in IpFlowText(priority, inPort, srcNet, dstNet, newSrcMac, newDstMac, outPort)
  {
    DecText(priority);
    DecText(inPort);
    DecText(outPort);
    PartNoNul(", nw_src=", srcNet);
    PartNoNul(", nw_dst=", dstNet);
    PartNoNul(", in_port=", InPort(inPort));
    assert '\0' !in MatchText(priority, inPort, srcNet, dstNet);
    MacPartNoNul(newSrcMac);
    MacPartNoNul(newDstMac);
    ActionTextNoNul(MacPart(newSrcMac), MacPart(newDstMac), outPort);
  }

  lemma ActionTextNoNul(srcMacText: Option<string>, dstMacText: Option<string>, outPort: u32)
    requires srcMacText.Some? ==> '\0' !in srcMacText.value
    requires dstMacText.Some? ==> '\0' !in dstMacText.value
    ensures '\0' !in ActionText(srcMacText, dstMacText, outPort)
  {
    DecText(outPort);
    PartNoNul(", mod_dl_src=", srcMacText);
    PartNoNul(", mod_dl_dst=", dstMacText);
  }

  lemma MacPartNoNul(mac: Option<seq<byte>>)
    requires MacGiven(mac)
    ensures MacPart(mac).Some? ==> '\0' !in MacPart(mac).value
  {
    if mac.Some? {
      MacNoNul(mac.value);
    }
  }

  lemma PartNoNul(key: string, value: Option<string>)
    requires key != [] && '\0' !in key && (value.Some? ==> '\0' !in value.value)
    ensures '\0' !in Part(key, value)
  {
  }

  /** A decimal rendering holds no NUL. */
  lemma DecText(n: nat)
    ensures '\0' !in Dec(n)
  {
  }

  /** A MAC rendering holds no NUL. */
  lemma MacNoNul(mac: seq<byte>)
    requires |mac| == MAC_ADDR_BYTES
    ensures '\0' !in MacText(mac)
  {
    forall b: byte
      ensures '\0' !in Hex2(b)
    {
    }
  }

  /** The rule ovsArpOnly installs: ARP is switched normally, at the given priority. */
  function ArpOnlyText(priority: u32): string {
    "arp, priority=" + Dec(priority) + ", actions=NORMAL"
  }

  /** ovsArpOnly formats its rule into 256 bytes; it always fits with its NUL. */
  lemma ArpOnlyFits(priority: u32)
    ensures |ArpOnlyText(priority)| < 256
  {
    DecU32(priority);
  }

  /**
   * The ARP responder rule of ovsAddArpResponse over its rendered inputs:
   * rewrite the request into a reply from the MAC for the address and send
   * it back out of its input port.  One parenthesised piece per printf.
   */
  function ArpRuleText(priority: u32, ipText: string, macText: string, macHex: string, ipHex: string): string {
    ArpMatchText(priority, ipText, macText) + ArpLoadText(macHex, ipHex)
  }

  /** The first four pieces: the match, then the Ethernet rewrite. */
  function ArpMatchText(priority: u32, ipText: string, macText: string): string {
    ("dl_type=0x0806, priority=" + Dec(priority) + ",")
    + ("nw_dst=" + ipText + ",")
    + ArpSwapText
    + ("mod_dl_src:" + macText + ",")
  }

  /** The last four pieces: the ARP reply fields, then the input port as output. */
  function ArpLoadText(macHex: string, ipHex: string): string {
    ArpMoveText
    + ("load:0x" + macHex + "->NXM_NX_ARP_SHA[],")
    + ("load:0x" + ipHex + "->NXM_OF_ARP_SPA[],")
    + "in_port"
  }

  const ArpSwapText: string := "actions=move:NXM_OF_ETH_SRC[]->NXM_OF_ETH_DST[],"
  const ArpMoveText: string :=
    "load:0x2->NXM_OF_ARP_OP[], move:NXM_NX_ARP_SHA[]->NXM_NX_ARP_THA[], move:NXM_OF_ARP_SPA[]->NXM_OF_ARP_TPA[],"

  /**
   * The rule for `ip` and `mac`: `ipText` is the dotted rendering of the
   * address, the hardware and protocol addresses are loaded as the hex of the
   * MAC octets and of the address bytes (ip >> 8i) & 0xFF for i = 0..3.
   */
  function ArpResponseText(priority: u32, ipText: string, ip: u32, mac: seq<byte>): string
    requires |mac| == MAC_ADDR_BYTES
  {
    ArpRuleText(priority, ipText, MacText(mac), HexOf(mac), HexOf(IpBytes(ip)))
  }

  /**
   * Both loads of the ARP rule carry their address losslessly: the hex reads
   * back as the MAC octets and as the four address bytes, which put back
   * together, least significant first, give the address.
   */
  lemma ArpLoadsRecover(ip: u32, mac: seq<byte>)
    requires |mac| == MAC_ADDR_BYTES
    ensures ParseHex(HexOf(mac)) == Some(mac)
    ensures ParseHex(HexOf(IpBytes(ip))).Some?
    ensures var b := ParseHex(HexOf(IpBytes(ip))).value;
      |b| == 4 && b[0] as nat + 0x100 * b[1] as nat + 0x1_0000 * b[2] as nat + 0x100_0000 * b[3] as nat == ip
  {
    ParseHexOf(mac);
    ParseHexOf(IpBytes(ip));
    IpBytesValue(ip);
  }

  // ---------------------------------------------------------------------
  // Building a rule in the action buffer
  // ---------------------------------------------------------------------

  /**
   * `flexBufferPrintf` at `len` followed by `--actionLen`: the text replaces
   * the terminator at `len`, a single NUL follows it, and the length now
   * points at that NUL.
   */
  method Concat(b: Buffer<char>, len: nat, text: string) returns (newLen: nat)
    requires b.Valid() && b.eltSize == 1 && len <= b.cap
    requires len + |text| <= 1000
    modifies b, b.data
    ensures b.Valid() && b.eltSize == 1
    ensures newLen == len + |text| && newLen < b.cap
    ensures b.data[..newLen] == old(b.data[..len]) + text
    ensures b.data[newLen] == '\0'
    ensures b.data == old(b.data) || fresh(b.data)
  {
    ghost var before := b.data[..len];
    var printed, aborted := Printf(b, Some(len), Some(text));
    assert !aborted;
    newLen := printed.value - 1;
    assert b.data[..newLen] == b.data[..len] + b.data[len..newLen];
    assert b.data[len..newLen] == (text + ['\0'])[..|text|];
    assert b.data[newLen] == (text + ['\0'])[|text|];
  }

  /** An optional piece: `Concat` when the value is given, nothing otherwise. */
  method ConcatPart(b: Buffer<char>, len: nat, key: string, value: Option<string>) returns (newLen: nat)
    requires b.Valid() && b.eltSize == 1 && len < b.cap && b.data[len] == '\0'
    requires key != [] && len + |Part(key, value)| <= 1000
    modifies b, b.data
    ensures b.Valid() && b.eltSize == 1
    ensures newLen == len + |Part(key, value)| && newLen < b.cap
    ensures b.data[..newLen] == old(b.data[..len]) + Part(key, value)
    ensures b.data[newLen] == '\0'
    ensures b.data == old(b.data) || fresh(b.data)
  {
    newLen := len;
    if value.Some? {
      newLen := Concat(b, len, key + value.value);
    }
  }

  /** The match of the IP rule, written at the start of the buffer. */
  method BuildMatch(b: Buffer<char>, priority: u32, inPort: u32, srcNet: Option<string>, dstNet: Option<string>)
    returns (len: nat)
    requires b.Valid() && b.eltSize == 1 && SubnetText(srcNet) && SubnetText(dstNet)
    modifies b, b.data
    ensures b.Valid() && b.eltSize == 1 && len < b.cap && len <= 100
    ensures b.data[..len] == MatchText(priority, inPort, srcNet, dstNet) && b.data[len] == '\0'
    ensures b.data == old(b.data) || fresh(b.data)
  {
    DecU32(priority);
    DecU32(inPort);
    len := Concat(b, 0, "ip, priority=" + Dec(priority));
    ghost var built := "ip, priority=" + Dec(priority);
    assert b.data[..len] == built;
    len := ConcatPart(b, len, ", in_port=", InPort(inPort));
    built := built + Part(", in_port=", InPort(inPort));
    assert b.data[..len] == built;
    len := ConcatPart(b, len, ", nw_src=", srcNet);
    built := built + Part(", nw_src=", srcNet);
    assert b.data[..len] == built;
    len := ConcatPart(b, len, ", nw_dst=", dstNet);
    built := built + Part(", nw_dst=", dstNet);
    assert b.data[..len] == built;
  }

  lemma AppendThree<T>(a: seq<T>, p1: seq<T>, p2: seq<T>, p3: seq<T>)
    ensures a + (p1 + p2 + p3) == a + p1 + p2 + p3
  {
  }

  /** The actions of the IP rule, written at `len`. */
  method BuildActions(b: Buffer<char>, len: nat, srcMacText: Option<string>, dstMacText: Option<string>, outPort: u32)
    returns (newLen: nat)
    requires b.Valid() && b.eltSize == 1 && len < b.cap && b.data[len] == '\0' && len <= 200
    requires srcMacText.Some? ==> |srcMacText.value| <= 17
    requires dstMacText.Some? ==> |dstMacText.value| <= 17
    modifies b, b.data
    ensures b.Valid() && b.eltSize == 1 && newLen < b.cap
    ensures b.data[..newLen] == old(b.data[..len]) + ActionText(srcMacText, dstMacText, outPort)
    ensures b.data[newLen] == '\0'
    ensures b.data == old(b.data) || fresh(b.data)
  {
    DecU32(outPort);
    ghost var before := b.data[..len];
    ghost var p1, p2, p3 := Part(", mod_dl_src=", srcMacText), Part(", mod_dl_dst=", dstMacText), ", output:" + Dec(outPort);
    newLen := ConcatPart(b, len, ", mod_dl_src=", srcMacText);
    assert b.data[..newLen] == before + p1;
    newLen := ConcatPart(b, newLen, ", mod_dl_dst=", dstMacText);
    assert b.data[..newLen] == before + p1 + p2;
    newLen := Concat(b, newLen, ", output:" + Dec(outPort));
    assert b.data[..newLen] == before + p1 + p2 + p3;
    AppendThree(before, p1, p2, p3);
  }

  /**
   * The IP rule built piece by piece as ovsAddIpFlow does: the buffer holds
   * exactly the rule and one NUL after it.
   */
  method BuildIpFlow(b: Buffer<char>, priority: u32, inPort: u32, srcNet: Option<string>, dstNet: Option<string>,
                     newSrcMac: Option<seq<byte>>, newDstMac: Option<seq<byte>>, outPort: u32) returns (len: nat)
    requires b.Valid() && b.eltSize == 1
    requires SubnetText(srcNet) && SubnetText(dstNet) && MacGiven(newSrcMac) && MacGiven(newDstMac)
    modifies b, b.data
    ensures b.Valid() && b.eltSize == 1 && len < b.cap
    ensures b.data[..len] == IpFlowText(priority, inPort, srcNet, dstNet, newSrcMac, newDstMac, outPort)
    ensures b.data[len] == '\0'
    ensures b.data == old(b.data) || fresh(b.data)
  {
    len := BuildMatch(b, priority, inPort, srcNet, dstNet);
    len := Concat(b, len, ", actions=");
    len := BuildActions(b, len, MacPart(newSrcMac), MacPart(newDstMac), outPort);
  }

  /** The ARP responder rule built piece by piece as ovsAddArpResponse does, from the start of the buffer. */
  method BuildArpRule(b: Buffer<char>, priority: u32, ipText: string, macText: string, macHex: string, ipHex: string)
    returns (len: nat)
    requires b.Valid() && b.eltSize == 1
    requires |ipText| < IP4_ADDR_BUFLEN && |macText| < MAC_ADDR_BUFLEN && |macHex| == 2 * MAC_ADDR_BYTES && |ipHex| == 8
    modifies b, b.data
    ensures b.Valid() && b.eltSize == 1 && len < b.cap
    ensures b.data[..len] == ArpRuleText(priority, ipText, macText, macHex, ipHex) && b.data[len] == '\0'
    ensures b.data == old(b.data) || fresh(b.data)
  {
    len := BuildArpMatch(b, priority, ipText, macText);
    len := BuildArpLoads(b, len, macHex, ipHex);
  }

  method BuildArpMatch(b: Buffer<char>, priority: u32, ipText: string, macText: string) returns (len: nat)
    requires b.Valid() && b.eltSize == 1 && |ipText| < IP4_ADDR_BUFLEN && |macText| < MAC_ADDR_BUFLEN
    modifies b, b.data
    ensures b.Valid() && b.eltSize == 1 && len < b.cap && len <= 200
    ensures b.data[..len] == ArpMatchText(priority, ipText, macText) && b.data[len] == '\0'
    ensures b.data == old(b.data) || fresh(b.data)
  {
    DecU32(priority);
    ghost var p1, p2 := "dl_type=0x0806, priority=" + Dec(priority) + ",", "nw_dst=" + ipText + ",";
    ghost var p4 := "mod_dl_src:" + macText + ",";
    len := Concat(b, 0, "dl_type=0x0806, priority=" + Dec(priority) + ",");
    assert b.data[..len] == p1;
    len := Concat(b, len, "nw_dst=" + ipText + ",");
    assert b.data[..len] == p1 + p2;
    len := Concat(b, len, ArpSwapText);
    assert b.data[..len] == p1 + p2 + ArpSwapText;
    len := Concat(b, len, "mod_dl_src:" + macText + ",");
    assert b.data[..len] == p1 + p2 + ArpSwapText + p4;
  }

  method BuildArpLoads(b: Buffer<char>, len: nat, macHex: string, ipHex: string) returns (newLen: nat)
    requires b.Valid() && b.eltSize == 1 && len <= b.cap && len <= 200
    requires |macHex| == 2 * MAC_ADDR_BYTES && |ipHex| == 8
    modifies b, b.data
    ensures b.Valid() && b.eltSize == 1 && newLen < b.cap
    ensures b.data[..newLen] == old(b.data[..len]) + ArpLoadText(macHex, ipHex) && b.data[newLen] == '\0'
    ensures b.data == old(b.data) || fresh(b.data)
  {
    ghost var before := b.data[..len];
    ghost var p2, p3 := "load:0x" + macHex + "->NXM_NX_ARP_SHA[],", "load:0x" + ipHex + "->NXM_OF_ARP_SPA[],";
    newLen := Concat(b, len, ArpMoveText);
    assert b.data[..newLen] == before + ArpMoveText;
    newLen := Concat(b, newLen, "load:0x" + macHex + "->NXM_NX_ARP_SHA[],");
    assert b.data[..newLen] == before + ArpMoveText + p2;
    newLen := Concat(b, newLen, "load:0x" + ipHex + "->NXM_OF_ARP_SPA[],");
    assert b.data[..newLen] == before + ArpMoveText + p2 + p3;
    newLen := Concat(b, newLen, "in_port");
    assert b.data[..newLen] == before + ArpMoveText + p2 + p3 + "in_port";
    AppendFour(before, ArpMoveText, p2, p3, "in_port");
  }

  lemma AppendFour<T>(a: seq<T>, p1: seq<T>, p2: seq<T>, p3: seq<T>, p4: seq<T>)
    ensures a + (p1 + p2 + p3 + p4) == a + p1 + p2 + p3 + p4
  {
  }
}
