// The rtnetlink requests of the older network module (src/net.c), built with
// the older netlink client: creating a veth pair, adding and removing an
// IPv4 address, and adding a route; and the path of a named namespace.

module NetMessages {
  import opened Base
  import opened CText
  import opened NlWire
  import opened NetlinkOld
  import NetlinkOldReceive

  // Message types, attribute types and field values of the Linux rtnetlink
  // interface (linux/rtnetlink.h, linux/if_link.h, linux/if_addr.h, linux/veth.h).
  const RTM_NEWLINK: u16 := 16
  const RTM_NEWADDR: u16 := 20
  const RTM_DELADDR: u16 := 21
  const RTM_NEWROUTE: u16 := 24

  const IFLA_IFNAME: u16 := 3
  const IFLA_LINKINFO: u16 := 18
  const IFLA_NET_NS_FD: u16 := 28
  const IFLA_INFO_KIND: u16 := 1
  const IFLA_INFO_DATA: u16 := 2
  const VETH_INFO_PEER: u16 := 1

  const IFA_ADDRESS: u16 := 1
  const IFA_LOCAL: u16 := 2
  const IFA_BROADCAST: u16 := 4
  const IFA_ANYCAST: u16 := 5

  const RTA_DST: u16 := 1
  const RTA_OIF: u16 := 4
  const RTA_GATEWAY: u16 := 5

  const AF_UNSPEC: byte := 0
  const AF_INET: byte := 2
  const RT_TABLE_MAIN: byte := 254
  const RTPROT_STATIC: byte := 4
  const RT_SCOPE_UNIVERSE: byte := 0
  const RTN_UNICAST: byte := 1

  /** PATH_MAX of Linux, the size of the caller's path buffer. */
  const PATH_MAX: nat := 4096
  const NET_NS_DIR: string := "/var/run/netns"

  // ---------------------------------------------------------------------
  // Encodings of the fixed parts (x86-64: integers are little-endian in memory)

  /** The bytes of a C `int` in memory: two's complement, little-endian. */
  function IntBytes(v: i32): (r: seq<byte>)
    ensures |r| == 4
    ensures ReadLE32(r, 0) == if v < 0 then v + U32_LIMIT else v
  {
    var u: u32 := if v < 0 then v + U32_LIMIT else v;
    LE32Inverse(u, LE32(u), 0);
    LE32(u)
  }

  /** A C string as copied with strlen + 1 bytes: its characters and the terminating NUL. */
  function CStringBytes(s: seq<byte>): (r: seq<byte>)
    ensures |r| == |s| + 1 && r[..|s|] == s && r[|s|] == 0
  {
    s + [0]
  }

  /** A C string: no NUL before the terminator. */
  predicate NoNul(s: seq<byte>) {
    forall i | 0 <= i < |s| :: s[i] != 0
  }

  /** struct ifinfomsg as netCreateVethPair fills it: every field zero except ifi_change = ~0. */
  function IfInfoMsg(): (r: seq<byte>)
    ensures |r| == 16
  {
    [AF_UNSPEC, 0] + LE16(0) + LE32(0) + LE32(0) + LE32(U32_LIMIT - 1)
  }

  /** struct ifaddrmsg: family AF_INET, the prefix length, no flags, scope 0, the interface index. */
  function IfAddrMsg(prefixLen: byte, devIdx: i32): (r: seq<byte>)
    ensures |r| == 8 && r[1] == prefixLen && r[4..] == IntBytes(devIdx)
  {
    [AF_INET, prefixLen, 0, 0] + IntBytes(devIdx)
  }

  /** struct rtmsg of netAddRoute: a static unicast route in the main table. */
  function RtMsg(dstLen: byte): (r: seq<byte>)
    ensures |r| == 12 && r[1] == dstLen && r[4] == RT_TABLE_MAIN
  {
    [AF_INET, dstLen, 0, 0, RT_TABLE_MAIN, RTPROT_STATIC, RT_SCOPE_UNIVERSE, RTN_UNICAST] + LE32(0)
  }

  /** An attribute whose payload is a single run of bytes. */
  function Leaf(t: u16, payload: seq<byte>): Item {
    Nest(t, [Raw(payload)])
  }

  /** The types of the top-level attributes among `items`, in order. */
  function AttrTypes(items: seq<Item>): seq<u16>
    decreases |items|
  {
    if items == [] then []
    else (if items[0].Nest? then [items[0].attrType] else []) + AttrTypes(items[1..])
  }

  // ---------------------------------------------------------------------
  // Request flags

  /** The request flags with NLM_F_ACK added exactly when the call is synchronous. */
  function WithAck(base: bv16, sync: bool): (f: bv16)
    requires base & NLM_F_ACK == 0
    ensures (f & NLM_F_ACK != 0) <==> sync
    ensures f & !NLM_F_ACK == base
  {
    base | (if sync then NLM_F_ACK else 0)
  }

  const CREATE_EXCL: bv16 := NLM_F_CREATE | NLM_F_EXCL
  const CREATE_REPLACE: bv16 := NLM_F_CREATE | NLM_F_REPLACE

  /** veth and route requests create and fail if the object exists; address requests create or replace. */
  lemma RequestFlags(sync: bool)
    ensures var f := WithAck(CREATE_EXCL, sync);
      f & NLM_F_CREATE != 0 && f & NLM_F_EXCL != 0 && f & NLM_F_REPLACE == 0
    ensures var f := WithAck(CREATE_REPLACE, sync);
      f & NLM_F_CREATE != 0 && f & NLM_F_REPLACE != 0 && f & NLM_F_EXCL == 0
    ensures var f := WithAck(0, sync);
      f & (NLM_F_CREATE | NLM_F_EXCL | NLM_F_REPLACE) == 0
  {
  }

  // ---------------------------------------------------------------------
  // The requests, as attribute trees

  /** The body of the RTM_NEWLINK request of netCreateVethPair. */
  function VethRequest(name1: seq<byte>, fd1: i32, name2: seq<byte>, fd2: i32): seq<Item> {
    [ Raw(IfInfoMsg()),
      Leaf(IFLA_IFNAME, CStringBytes(name1)),
      Leaf(IFLA_NET_NS_FD, IntBytes(fd1)),
      Nest(IFLA_LINKINFO, [
        Leaf(IFLA_INFO_KIND, [118, 101, 116, 104]),   // "veth", without a terminator
        Nest(IFLA_INFO_DATA, [PeerInfo(name2, fd2)])])]
  }

  /** VETH_INFO_PEER: the peer's ifinfomsg, name and namespace. */
  function PeerInfo(name2: seq<byte>, fd2: i32): Item {
    Nest(VETH_INFO_PEER, [
      Raw(IfInfoMsg()),
      Leaf(IFLA_IFNAME, CStringBytes(name2)),
      Leaf(IFLA_NET_NS_FD, IntBytes(fd2))])
  }

  /**
   * The veth request opens eight attributes, at most four at once
   * (IFLA_LINKINFO, IFLA_INFO_DATA, VETH_INFO_PEER and a name or namespace),
   * well within MAX_ATTR_NEST.
   */
  lemma VethShape(name1: seq<byte>, fd1: i32, name2: seq<byte>, fd2: i32)
    ensures NestCount(VethRequest(name1, fd1, name2, fd2)) == 8
    ensures NestDepth(VethRequest(name1, fd1, name2, fd2)) == 4 < MAX_ATTR_NEST
  {
    var name2Attr := Leaf(IFLA_IFNAME, CStringBytes(name2));
    var fd2Attr := Leaf(IFLA_NET_NS_FD, IntBytes(fd2));
    LeafSize(name2Attr.attrType, CStringBytes(name2));
    LeafSize(fd2Attr.attrType, IntBytes(fd2));
    Cons(fd2Attr, []);
    Cons(name2Attr, [fd2Attr]);
    Cons(Raw(IfInfoMsg()), [name2Attr, fd2Attr]);
    var peer := PeerInfo(name2, fd2);
    Cons(peer, []);
    var infoData := Nest(IFLA_INFO_DATA, [peer]);
    var kind := Leaf(IFLA_INFO_KIND, [118, 101, 116, 104]);
    LeafSize(kind.attrType, [118, 101, 116, 104]);
    Cons(infoData, []);
    Cons(kind, [infoData]);
    var linkInfo := Nest(IFLA_LINKINFO, [kind, infoData]);
    var name1Attr := Leaf(IFLA_IFNAME, CStringBytes(name1));
    var fd1Attr := Leaf(IFLA_NET_NS_FD, IntBytes(fd1));
    LeafSize(name1Attr.attrType, CStringBytes(name1));
    LeafSize(fd1Attr.attrType, IntBytes(fd1));
    Cons(linkInfo, []);
    Cons(fd1Attr, [linkInfo]);
    Cons(name1Attr, [fd1Attr, linkInfo]);
    Cons(Raw(IfInfoMsg()), [name1Attr, fd1Attr, linkInfo]);
  }

  /** A run of bytes opens no attribute. */
  lemma LeafSize(t: u16, payload: seq<byte>)
    ensures NestCount([Raw(payload)]) == 0 && NestDepth([Raw(payload)]) == 0
  {
    assert [Raw(payload)][1..] == [];
  }

  /** How a piece in front of others adds to the count and depth of attributes. */
  lemma Cons(it: Item, rest: seq<Item>)
    ensures NestCount([it] + rest) == (match it case Raw(_) => 0 case Nest(_, sub) => 1 + NestCount(sub)) + NestCount(rest)
    ensures var here := match it case Raw(_) => 0 case Nest(_, sub) => 1 + NestDepth(sub);
      NestDepth([it] + rest) == if here < NestDepth(rest) then NestDepth(rest) else here
  {
    assert ([it] + rest)[0] == it;
    assert ([it] + rest)[1..] == rest;
  }

  /**
   * The attributes of netAddInterfaceAddrIPv4 as written: IFA_LOCAL and
   * IFA_ADDRESS when the address is non-zero, IFA_BROADCAST and IFA_ANYCAST
   * when their arguments are non-zero, each carrying `addr`.
   */
  function AddrAttrsAsWritten(addr: u32, broadcastAddr: u32, anycastAddr: u32): seq<Item> {
    AddrAttrs(addr, broadcastAddr, anycastAddr, addr, addr)
  }

  /** The same attributes with IFA_BROADCAST and IFA_ANYCAST carrying their own addresses. */
  function IntendedAddrAttrs(addr: u32, broadcastAddr: u32, anycastAddr: u32): seq<Item> {
    AddrAttrs(addr, broadcastAddr, anycastAddr, broadcastAddr, anycastAddr)
  }

  function AddrAttrs(addr: u32, broadcastAddr: u32, anycastAddr: u32,
                     broadcastPayload: u32, anycastPayload: u32): seq<Item>
  {
    (if addr > 0 then [Leaf(IFA_LOCAL, LE32(addr)), Leaf(IFA_ADDRESS, LE32(addr))] else [])
      + (if broadcastAddr > 0 then [Leaf(IFA_BROADCAST, LE32(broadcastPayload))] else [])
      + (if anycastAddr > 0 then [Leaf(IFA_ANYCAST, LE32(anycastPayload))] else [])
  }

  /** Which attributes an address request carries, and in which order. */
  lemma AddrAttrsPresent(addr: u32, broadcastAddr: u32, anycastAddr: u32, bp: u32, ap: u32)
    ensures AttrTypes(AddrAttrs(addr, broadcastAddr, anycastAddr, bp, ap))
         == (if addr > 0 then [IFA_LOCAL, IFA_ADDRESS] else [])
          + (if broadcastAddr > 0 then [IFA_BROADCAST] else [])
          + (if anycastAddr > 0 then [IFA_ANYCAST] else [])
  {
    var a := if addr > 0 then [Leaf(IFA_LOCAL, LE32(addr)), Leaf(IFA_ADDRESS, LE32(addr))] else [];
    var b := if broadcastAddr > 0 then [Leaf(IFA_BROADCAST, LE32(bp))] else [];
    var c := if anycastAddr > 0 then [Leaf(IFA_ANYCAST, LE32(ap))] else [];
    AttrTypesConcat(a, b);
    AttrTypesConcat(a + b, c);
    if addr > 0 {
      assert a[1..] == [a[1]];
    }
  }

  lemma {:induction false} AttrTypesConcat(xs: seq<Item>, ys: seq<Item>)
    ensures AttrTypes(xs + ys) == AttrTypes(xs) + AttrTypes(ys)
    decreases |xs|
  {
    if xs != [] {
      assert (xs + ys)[0] == xs[0];
      assert (xs + ys)[1..] == xs[1..] + ys;
      AttrTypesConcat(xs[1..], ys);
    } else {
      assert xs + ys == ys;
    }
  }

  /** As written, every attribute of an address request carries the address itself, broadcast and anycast included. */
  lemma AddrPayloadsAsWritten(addr: u32, broadcastAddr: u32, anycastAddr: u32)
    ensures forall it | it in AddrAttrsAsWritten(addr, broadcastAddr, anycastAddr) :: it == Leaf(it.attrType, LE32(addr))
  {
  }

  /** With a broadcast address other than the address, the request as written announces the wrong broadcast address. */
  lemma BroadcastCarriesAddress()
    ensures var attrs := AddrAttrsAsWritten(0x0A00_0001, 0x0A00_00FF, 0);
      Leaf(IFA_BROADCAST, LE32(0x0A00_0001)) in attrs && Leaf(IFA_BROADCAST, LE32(0x0A00_00FF)) !in attrs
  {
    var attrs := AddrAttrsAsWritten(0x0A00_0001, 0x0A00_00FF, 0);
    assert attrs[2] == Leaf(IFA_BROADCAST, LE32(0x0A00_0001));
    assert LE32(0x0A00_0001) != LE32(0x0A00_00FF) by {
      assert LE32(0x0A00_0001)[0] == 1;
    }
  }

  /** Intended: IFA_BROADCAST and IFA_ANYCAST carry the addresses passed for them. */
  lemma IntendedAddrPayloads(addr: u32, broadcastAddr: u32, anycastAddr: u32)
    ensures var attrs := IntendedAddrAttrs(addr, broadcastAddr, anycastAddr);
      && (broadcastAddr > 0 <==> Leaf(IFA_BROADCAST, LE32(broadcastAddr)) in attrs)
      && (anycastAddr > 0 <==> Leaf(IFA_ANYCAST, LE32(anycastAddr)) in attrs)
      && forall it | it in attrs && it.attrType in {IFA_LOCAL, IFA_ADDRESS} :: it == Leaf(it.attrType, LE32(addr))
  {
  }

  /** The attributes of netAddRoute: RTA_DST and RTA_OIF always, RTA_GATEWAY between them when a gateway is given. */
  function RouteAttrs(dstAddr: u32, gatewayAddr: u32, dstDevIdx: i32): seq<Item> {
    [Leaf(RTA_DST, LE32(dstAddr))]
      + (if gatewayAddr != 0 then [Leaf(RTA_GATEWAY, LE32(gatewayAddr))] else [])
      + [Leaf(RTA_OIF, IntBytes(dstDevIdx))]
  }

  lemma RouteAttrsPresent(dstAddr: u32, gatewayAddr: u32, dstDevIdx: i32)
    ensures AttrTypes(RouteAttrs(dstAddr, gatewayAddr, dstDevIdx))
         == [RTA_DST] + (if gatewayAddr != 0 then [RTA_GATEWAY] else []) + [RTA_OIF]
  {
    var a := [Leaf(RTA_DST, LE32(dstAddr))];
    var b := if gatewayAddr != 0 then [Leaf(RTA_GATEWAY, LE32(gatewayAddr))] else [];
    var c := [Leaf(RTA_OIF, IntBytes(dstDevIdx))];
    AttrTypesConcat(a, b);
    AttrTypesConcat(a + b, c);
  }

  /** The prefix length of netAddInterfaceAddrIPv4: at most 32, and the given one when it is. */
  function ClampPrefix(subnetBits: byte): (r: byte)
    ensures r <= 32 && (subnetBits <= 32 ==> r == subnetBits) && (subnetBits > 32 ==> r == 32)
  {
    if subnetBits > 32 then 32 else subnetBits
  }

  // ---------------------------------------------------------------------
  // The builder call sequences

  /** The innermost open level gets more pieces. */
  function Extended(levels: seq<seq<Item>>, items: seq<Item>): (r: seq<seq<Item>>)
    requires |levels| >= 1
    ensures |r| == |levels| && r[..|levels| - 1] == levels[..|levels| - 1]
    ensures r[|levels| - 1] == levels[|levels| - 1] + items
  {
    levels[..|levels| - 1] + [levels[|levels| - 1] + items]
  }

  /** A piece of a tree is no deeper than the tree. */
  lemma {:induction false} NestDepthElement(items: seq<Item>, i: nat)
    requires i < |items|
    ensures items[i].Nest? ==> 1 + NestDepth(items[i].items) <= NestDepth(items)
    decreases i
  {
    if i > 0 {
      assert items[1..][i - 1] == items[i];
      NestDepthElement(items[1..], i - 1);
    }
  }

  /**
   * The builder calls that lay out a tree of pieces, in order: nlBufferAppend
   * for each run of bytes, and nlPushAttr, the attribute's contents and
   * nlPopAttr for each attribute.  The message functions of the network
   * module are such sequences, written out.
   */
  method EmitItems(nl: Context, mb: MsgBuffer, items: seq<Item>)
    requires nl.Building(mb) && nl.attrDepth + NestDepth(items) <= MAX_ATTR_NEST
    modifies nl, nl.attrNestPos, mb, mb.data
    ensures nl.Building(mb) && (mb.data == old(mb.data) || fresh(mb.data))
    ensures nl.attrDepth == old(nl.attrDepth) && nl.types == old(nl.types)
    ensures nl.levels == Extended(old(nl.levels), items)
    ensures nl.head == old(nl.head) && nl.nextSeq == old(nl.nextSeq) && nl.pid == old(nl.pid)
    decreases items, 1
  {
    ghost var levels0 := nl.levels;
    var i := 0;
    assert levels0[|levels0| - 1] + items[..0] == levels0[|levels0| - 1];
    while i < |items|
      invariant 0 <= i <= |items|
      invariant nl.Building(mb) && (mb.data == old(mb.data) || fresh(mb.data))
      invariant nl.attrDepth == old(nl.attrDepth) && nl.types == old(nl.types)
      invariant nl.levels == Extended(levels0, items[..i])
      invariant nl.head == old(nl.head) && nl.nextSeq == old(nl.nextSeq) && nl.pid == old(nl.pid)
    {
      EmitItem(nl, mb, items, i);
      ExtendedTwice(levels0, items[..i], items[i]);
      TakeNext(items, i);
      i := i + 1;
    }
    assert items[..i] == items;
  }

  /** One piece of a tree. */
  method EmitItem(nl: Context, mb: MsgBuffer, items: seq<Item>, i: nat)
    requires i < |items|
    requires nl.Building(mb) && nl.attrDepth + NestDepth(items) <= MAX_ATTR_NEST
    modifies nl, nl.attrNestPos, mb, mb.data
    ensures nl.Building(mb) && (mb.data == old(mb.data) || fresh(mb.data))
    ensures nl.attrDepth == old(nl.attrDepth) && nl.types == old(nl.types)
    ensures nl.levels == Extended(old(nl.levels), [items[i]])
    ensures nl.head == old(nl.head) && nl.nextSeq == old(nl.nextSeq) && nl.pid == old(nl.pid)
    decreases items, 0
  {
    NestDepthElement(items, i);
    match items[i] {
      case Raw(bytes) =>
        nl.BufferAppend(mb, bytes);
      case Nest(t, sub) =>
        EmitNest(nl, mb, t, sub);
    }
  }

  /** One attribute with its contents: nlPushAttr, the contents, nlPopAttr. */
  method EmitNest(nl: Context, mb: MsgBuffer, t: u16, sub: seq<Item>)
    requires nl.Building(mb) && nl.attrDepth + 1 + NestDepth(sub) <= MAX_ATTR_NEST
    modifies nl, nl.attrNestPos, mb, mb.data
    ensures nl.Building(mb) && (mb.data == old(mb.data) || fresh(mb.data))
    ensures nl.attrDepth == old(nl.attrDepth) && nl.types == old(nl.types)
    ensures nl.levels == Extended(old(nl.levels), [Nest(t, sub)])
    ensures nl.head == old(nl.head) && nl.nextSeq == old(nl.nextSeq) && nl.pid == old(nl.pid)
    decreases sub, 2
  {
    ghost var (levels0, types0) := (nl.levels, nl.types);
    var r := nl.PushAttr(mb, t);
    EmitItems(nl, mb, sub);
    r := nl.PopAttr(mb);
    OpenClose(levels0, types0, t, sub);
  }

  /** Pushing, filling and popping an attribute adds it to the level that was innermost. */
  lemma OpenClose(levels: seq<seq<Item>>, types: seq<u16>, t: u16, sub: seq<Item>)
    requires |levels| == |types| + 1
    ensures PopLevel(Extended(levels + [[]], sub), types + [t]) == Extended(levels, [Nest(t, sub)])
  {
    var d := |types| + 1;
    assert (levels + [[]])[..d] == levels;
    assert [] + sub == sub;
    assert Extended(levels + [[]], sub) == levels + [sub];
    assert (levels + [sub])[..d - 1] == levels[..d - 1];
    assert (types + [t])[d - 1] == t;
  }

  /** Extending the innermost level twice extends it once by both. */
  lemma ExtendedTwice(levels: seq<seq<Item>>, items: seq<Item>, it: Item)
    requires |levels| >= 1
    ensures Extended(Extended(levels, items), [it]) == Extended(levels, items + [it])
  {
    var n := |levels|;
    assert levels[n - 1] + items + [it] == levels[n - 1] + (items + [it]);
  }

  lemma TakeNext<T>(s: seq<T>, i: nat)
    requires i < |s|
    ensures s[..i + 1] == s[..i] + [s[i]]
  {
  }

  // ---------------------------------------------------------------------
  // The request functions

  /**
   * The common shape of the request functions: nlInitMessage, the builder
   * calls laying out `body`, and nlSendMessage without a handler.  What is
   * sent is the header followed by `body`, and the result is the send and
   * receive outcome for the stamped sequence number.
   */
  method Request(nl: Context, mb: MsgBuffer, msgType: u16, msgFlags: bv16, body: seq<Item>, wait: bool,
                 attempts: seq<SendAttempt>, events: seq<RecvEvent>)
    returns (resp: Response, sent: seq<byte>)
    requires mb.Valid() && nl.attrNestPos.Length == MAX_ATTR_NEST && NestDepth(body) <= MAX_ATTR_NEST
    modifies nl, nl.attrNestPos, mb, mb.data
    ensures Matches(sent, SentPattern(HeaderTail(msgType, NLM_F_REQUEST | msgFlags, old(nl.nextSeq), old(nl.pid)), body))
    ensures resp == NetlinkOldReceive.SendOutcome(wait, None, old(nl.nextSeq), attempts, events)
    ensures nl.nextSeq == (old(nl.nextSeq) + 1) % U32_LIMIT && nl.pid == old(nl.pid)
  {
    ghost var (seqNo, pid) := (nl.nextSeq, nl.pid);
    nl.InitMessage(mb, msgType, msgFlags);
    EmitItems(nl, mb, body);
    assert nl.levels[0] == [] + body == body;
    HeaderSeqNo(msgType, NLM_F_REQUEST | msgFlags, seqNo, pid);
    resp, sent := nl.SendMessage(mb, wait, None, attempts, events);
  }

  /**
   * netCreateVethPair: an RTM_NEWLINK request creating `name1` in the
   * namespace `fd1` with its peer `name2` in `fd2`; it waits for the
   * kernel's answer exactly when `sync` holds.
   */
  method CreateVethPair(nl: Context, mb: MsgBuffer, name1: seq<byte>, name2: seq<byte>, fd1: i32, fd2: i32, sync: bool,
                        attempts: seq<SendAttempt>, events: seq<RecvEvent>)
    returns (resp: Response, sent: seq<byte>)
    requires NoNul(name1) && NoNul(name2)
    requires mb.Valid() && nl.attrNestPos.Length == MAX_ATTR_NEST
    modifies nl, nl.attrNestPos, mb, mb.data
    ensures Matches(sent, SentPattern(HeaderTail(RTM_NEWLINK, NLM_F_REQUEST | WithAck(CREATE_EXCL, sync), old(nl.nextSeq), old(nl.pid)),
                                      VethRequest(name1, fd1, name2, fd2)))
    ensures resp == NetlinkOldReceive.SendOutcome(sync, None, old(nl.nextSeq), attempts, events)
    ensures nl.nextSeq == (old(nl.nextSeq) + 1) % U32_LIMIT && nl.pid == old(nl.pid)
  {
    VethShape(name1, fd1, name2, fd2);
    resp, sent := Request(nl, mb, RTM_NEWLINK, WithAck(CREATE_EXCL, sync), VethRequest(name1, fd1, name2, fd2), sync,
                          attempts, events);
  }

  /**
   * netAddInterfaceAddrIPv4 as written: an RTM_NEWADDR request for the
   * interface `devIdx` with the prefix length clamped to 32 and the
   * attributes of AddrAttrsAsWritten.
   */
  method AddInterfaceAddrIPv4(nl: Context, mb: MsgBuffer, devIdx: i32, addr: u32, subnetBits: byte,
                              broadcastAddr: u32, anycastAddr: u32, sync: bool,
                              attempts: seq<SendAttempt>, events: seq<RecvEvent>)
    returns (resp: Response, sent: seq<byte>)
    requires mb.Valid() && nl.attrNestPos.Length == MAX_ATTR_NEST
    modifies nl, nl.attrNestPos, mb, mb.data
    ensures Matches(sent, SentPattern(HeaderTail(RTM_NEWADDR, NLM_F_REQUEST | WithAck(CREATE_REPLACE, sync), old(nl.nextSeq), old(nl.pid)),
                                      [Raw(IfAddrMsg(ClampPrefix(subnetBits), devIdx))] + AddrAttrsAsWritten(addr, broadcastAddr, anycastAddr)))
    ensures resp == NetlinkOldReceive.SendOutcome(sync, None, old(nl.nextSeq), attempts, events)
    ensures nl.nextSeq == (old(nl.nextSeq) + 1) % U32_LIMIT && nl.pid == old(nl.pid)
  {
    var body := [Raw(IfAddrMsg(ClampPrefix(subnetBits), devIdx))] + AddrAttrsAsWritten(addr, broadcastAddr, anycastAddr);
    FlatDepth(body);
    resp, sent := Request(nl, mb, RTM_NEWADDR, WithAck(CREATE_REPLACE, sync), body, sync, attempts, events);
  }

  /**
   * netDelInterfaceAddrIPv4: an RTM_DELADDR request for the interface
   * `devIdx` with a zero prefix length.  Only the NLM_F_ACK flag depends on
   * `sync`; the call always waits for the kernel's answer.
   */
  method DelInterfaceAddrIPv4(nl: Context, mb: MsgBuffer, devIdx: i32, sync: bool,
                              attempts: seq<SendAttempt>, events: seq<RecvEvent>)
    returns (resp: Response, sent: seq<byte>)
    requires mb.Valid() && nl.attrNestPos.Length == MAX_ATTR_NEST
    modifies nl, nl.attrNestPos, mb, mb.data
    ensures Matches(sent, SentPattern(HeaderTail(RTM_DELADDR, NLM_F_REQUEST | WithAck(0, sync), old(nl.nextSeq), old(nl.pid)),
                                      [Raw(IfAddrMsg(0, devIdx))]))
    ensures resp == NetlinkOldReceive.SendOutcome(true, None, old(nl.nextSeq), attempts, events)
    ensures nl.nextSeq == (old(nl.nextSeq) + 1) % U32_LIMIT && nl.pid == old(nl.pid)
  {
    FlatDepth([Raw(IfAddrMsg(0, devIdx))]);
    resp, sent := Request(nl, mb, RTM_DELADDR, WithAck(0, sync), [Raw(IfAddrMsg(0, devIdx))], true, attempts, events);
  }

  /**
   * netAddRoute: an RTM_NEWROUTE request for a static unicast route to
   * `dstAddr`/`subnetBits` through `dstDevIdx`, with the attributes of
   * RouteAttrs.
   */
  method AddRoute(nl: Context, mb: MsgBuffer, dstAddr: u32, subnetBits: byte, gatewayAddr: u32, dstDevIdx: i32, sync: bool,
                  attempts: seq<SendAttempt>, events: seq<RecvEvent>)
    returns (resp: Response, sent: seq<byte>)
    requires mb.Valid() && nl.attrNestPos.Length == MAX_ATTR_NEST
    modifies nl, nl.attrNestPos, mb, mb.data
    ensures Matches(sent, SentPattern(HeaderTail(RTM_NEWROUTE, NLM_F_REQUEST | WithAck(CREATE_EXCL, sync), old(nl.nextSeq), old(nl.pid)),
                                      [Raw(RtMsg(subnetBits))] + RouteAttrs(dstAddr, gatewayAddr, dstDevIdx)))
    ensures resp == NetlinkOldReceive.SendOutcome(sync, None, old(nl.nextSeq), attempts, events)
    ensures nl.nextSeq == (old(nl.nextSeq) + 1) % U32_LIMIT && nl.pid == old(nl.pid)
  {
    var body := [Raw(RtMsg(subnetBits))] + RouteAttrs(dstAddr, gatewayAddr, dstDevIdx);
    FlatDepth(body);
    resp, sent := Request(nl, mb, RTM_NEWROUTE, WithAck(CREATE_EXCL, sync), body, sync, attempts, events);
  }

  /** Runs of bytes and attributes holding only runs of bytes. */
  predicate Flat(items: seq<Item>) {
    forall i | 0 <= i < |items| :: items[i].Nest? ==> forall j | 0 <= j < |items[i].items| :: items[i].items[j].Raw?
  }

  /** Nothing but bytes: no attribute at all. */
  lemma {:induction false} RawDepth(items: seq<Item>)
    requires forall i | 0 <= i < |items| :: items[i].Raw?
    ensures NestDepth(items) == 0
    decreases |items|
  {
    if items != [] {
      RawDepth(items[1..]);
    }
  }

  /** Flat requests open one attribute at a time. */
  lemma {:induction false} FlatDepth(items: seq<Item>)
    requires Flat(items)
    ensures NestDepth(items) <= 1
    decreases |items|
  {
    if items != [] {
      if items[0].Nest? {
        RawDepth(items[0].items);
      }
      assert Flat(items[1..]) by {
        forall i | 0 <= i < |items| - 1
          ensures items[1..][i].Nest? ==> forall j | 0 <= j < |items[1..][i].items| :: items[1..][i].items[j].Raw?
        {
          assert items[1..][i] == items[i + 1];
        }
      }
      FlatDepth(items[1..]);
    }
  }

  // ---------------------------------------------------------------------
  // Namespace paths

  /** The path of a named namespace: the namespace directory, '/', the process-wide prefix and the name. */
  function NamespacePath(prefix: string, name: string): string {
    NET_NS_DIR + "/" + prefix + name
  }

  /**
   * getNamespacePath: the path is formatted into the caller's PATH_MAX
   * buffer; the result is 0 when it fits and -1 when it was truncated.
   * Characters after the terminator are left as they were.
   */
  method GetNamespacePath(buffer: array<char>, prefix: string, name: string) returns (res: int)
    requires buffer.Length == PATH_MAX
    modifies buffer
    ensures var w := Truncated(NamespacePath(prefix, name), PATH_MAX);
      buffer[..|w|] == w && buffer[|w|..] == old(buffer[|w|..])
    ensures res == 0 <==> |NamespacePath(prefix, name)| < PATH_MAX
    ensures res == -1 <==> |NamespacePath(prefix, name)| >= PATH_MAX
  {
    var text := NET_NS_DIR + "/" + prefix + name;
    var keep := if |text| < PATH_MAX then |text| else PATH_MAX - 1;
    var i := 0;
    while i < keep
      invariant 0 <= i <= keep
      invariant buffer[..i] == text[..i]
      invariant forall k | i <= k < PATH_MAX :: buffer[k] == old(buffer[k])
    {
      buffer[i] := text[i];
      i := i + 1;
    }
    buffer[keep] := '\0';
    assert buffer[..keep + 1] == text[..keep] + ['\0'];
    assert buffer[keep + 1..] == old(buffer[keep + 1..]);
    assert text[..keep] + ['\0'] == Truncated(text, PATH_MAX);
    if |text| >= PATH_MAX {
      return -1;
    }
    assert text[..keep] == text;
    return 0;
  }
}
