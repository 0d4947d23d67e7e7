/**
 * The rtnetlink wire format shared by both generations of the netlink engine
 * (section 2.2 of RFC 3549): the 16-byte message header (length, type, flags,
 * sequence number, port id), 4-byte rtattr headers (length, type), 4-byte
 * alignment, and the decoded form of what the kernel sends back.
 *
 * Multi-byte fields are written in host byte order; the model fixes that order
 * to little-endian.  A request under construction is described by a pattern of
 * slots: a slot is either a fixed byte or a byte whose content the builder
 * never writes (padding, or the header length before sending).
 */
module NlWire {
  import opened Base

  const NLMSG_HDRLEN: nat := 16      // NLMSG_SPACE(0)
  const RTA_HDRLEN: nat := 4         // RTA_SPACE(0)
  const MAX_ATTR_NEST: nat := 10
  const SOCKADDR_NL_LEN: nat := 12   // sizeof(struct sockaddr_nl)
  const RECV_BUFFER_SIZE: nat := 4096

  const NLM_F_REQUEST: bv16 := 0x1
  const NLM_F_MULTI: bv16 := 0x2
  const NLM_F_ACK: bv16 := 0x4
  const NLM_F_REPLACE: bv16 := 0x100
  const NLM_F_EXCL: bv16 := 0x200
  const NLM_F_CREATE: bv16 := 0x400

  const NLMSG_NOOP: nat := 1
  const NLMSG_ERROR: nat := 2
  const NLMSG_DONE: nat := 3

  /** RTA_ALIGN: the least multiple of 4 that is at least `n`. */
  function Align4(n: nat): (r: nat)
    ensures r % 4 == 0 && n <= r < n + 4
  {
    (n + 3) / 4 * 4
  }

  function LE16(v: u16): (r: seq<byte>)
    ensures |r| == 2
  {
    [v % 0x100, v / 0x100]
  }

  function LE32(v: u32): (r: seq<byte>)
    ensures |r| == 4
  {
    LE16(v % U16_LIMIT) + LE16(v / U16_LIMIT)
  }

  function ReadLE16(s: seq<byte>, off: nat): u16
    requires off + 2 <= |s|
  {
    s[off] as int + 0x100 * (s[off + 1] as int)
  }

  function ReadLE32(s: seq<byte>, off: nat): u32
    requires off + 4 <= |s|
  {
    ReadLE16(s, off) + U16_LIMIT * ReadLE16(s, off + 2)
  }

  /** Encoding and decoding a 16-bit field are inverse to each other, in both directions. */
  lemma LE16Inverse(v: u16, s: seq<byte>, off: nat)
    requires off + 2 <= |s|
    ensures ReadLE16(LE16(v), 0) == v
    ensures LE16(ReadLE16(s, off)) == s[off..off + 2]
  {
  }

  /** A field holding the encoding of `v` reads back as `v`. */
  lemma ReadLE16At(s: seq<byte>, off: nat, v: u16)
    requires off + 2 <= |s| && s[off..off + 2] == LE16(v)
    ensures ReadLE16(s, off) == v
  {
    assert s[off] == LE16(v)[0] && s[off + 1] == LE16(v)[1];
    LE16Inverse(v, s, off);
  }

  /** Encoding and decoding a 32-bit field are inverse to each other, in both directions. */
  lemma LE32Inverse(v: u32, s: seq<byte>, off: nat)
    requires off + 4 <= |s|
    ensures ReadLE32(LE32(v), 0) == v
    ensures LE32(ReadLE32(s, off)) == s[off..off + 4]
  {
    LE16Inverse(v % U16_LIMIT, s, off);
    LE16Inverse(v / U16_LIMIT, s, off + 2);
    assert LE32(v)[2..4] == LE16(v / U16_LIMIT);
    assert ReadLE16(LE32(v), 2) == ReadLE16(LE16(v / U16_LIMIT), 0);
  }

  /** Bytes 4..16 of a request header: type, flags, sequence number and port id. */
  function HeaderTail(msgType: u16, flags: bv16, seqNo: u32, pid: u32): (r: seq<byte>)
    ensures |r| == NLMSG_HDRLEN - 4
  {
    LE16(msgType) + LE16(flags as int) + LE32(seqNo) + LE32(pid)
  }

  /** The sequence number stamped into a header is the one read back from it. */
  lemma HeaderSeqNo(msgType: u16, flags: bv16, seqNo: u32, pid: u32)
    ensures ReadLE32(HeaderTail(msgType, flags, seqNo, pid), 4) == seqNo
  {
    var h := HeaderTail(msgType, flags, seqNo, pid);
    assert h[4..8] == LE32(seqNo);
    LE32Inverse(seqNo, h, 4);
    assert ReadLE32(h, 4) == ReadLE32(h[4..8], 0);
  }

  // ---------------------------------------------------------------------
  // Byte patterns

  datatype Slot = Fixed(b: byte) | Any

  function FixedSlots(s: seq<byte>): (p: seq<Slot>)
    ensures |p| == |s|
    ensures forall i :: 0 <= i < |s| ==> p[i] == Fixed(s[i])
  {
    seq(|s|, i requires 0 <= i < |s| => Fixed(s[i]))
  }

  function AnySlots(n: nat): (p: seq<Slot>)
    ensures |p| == n
    ensures forall i :: 0 <= i < n ==> p[i] == Any
  {
    seq(n, i => Any)
  }

  /** `b` agrees with every fixed slot of `p`; bytes under `Any` slots are unconstrained. */
  predicate Matches(b: seq<byte>, p: seq<Slot>) {
    |b| == |p| && forall i {:trigger b[i], p[i]} :: 0 <= i < |p| && p[i].Fixed? ==> b[i] == p[i].b
  }

  // ---------------------------------------------------------------------
  // Requests as trees of attributes

  /** A piece of a request body: raw bytes, or an rtattr wrapping further pieces. */
  datatype Item = Raw(bytes: seq<byte>) | Nest(attrType: u16, items: seq<Item>)

  function ItemsPattern(items: seq<Item>): seq<Slot>
    decreases items
  {
    if items == [] then [] else ItemPattern(items[0]) + ItemsPattern(items[1..])
  }

  /**
   * The layout of one piece.  An attribute is its header (rta_len = 4 + payload
   * length, truncated to 16 bits, then rta_type), its payload, and unwritten
   * padding up to the next multiple of 4.
   */
  function ItemPattern(it: Item): seq<Slot>
    decreases it
  {
    match it
    case Raw(bs) => FixedSlots(bs)
    case Nest(t, items) => AttrPattern(t, ItemsPattern(items))
  }

  /** An rtattr of type `t` around a payload laid out as `payload`. */
  function AttrPattern(t: u16, payload: seq<Slot>): seq<Slot> {
    FixedSlots(LE16((RTA_HDRLEN + |payload|) % U16_LIMIT)) + FixedSlots(LE16(t)) + payload
      + AnySlots(Align4(RTA_HDRLEN + |payload|) - (RTA_HDRLEN + |payload|))
  }

  /** Laying out a sequence of pieces is a homomorphism from concatenation. */
  lemma {:induction false} ItemsPatternAppend(xs: seq<Item>, ys: seq<Item>)
    ensures ItemsPattern(xs + ys) == ItemsPattern(xs) + ItemsPattern(ys)
  {
    if xs != [] {
      assert (xs + ys)[0] == xs[0];
      assert (xs + ys)[1..] == xs[1..] + ys;
      ItemsPatternAppend(xs[1..], ys);
    } else {
      assert xs + ys == ys;
    }
  }

  /** Every attribute occupies a multiple of 4 bytes, so the next piece starts aligned. */
  lemma NestAligned(t: u16, items: seq<Item>)
    ensures |ItemPattern(Nest(t, items))| == Align4(RTA_HDRLEN + |ItemsPattern(items)|)
    ensures |ItemPattern(Nest(t, items))| % 4 == 0
  {
  }

  /**
   * Reading an encoded attribute back: its header gives the type and the
   * unpadded length, and the bytes after the header carry the payload.
   */
  lemma NestRoundTrip(b: seq<byte>, t: u16, items: seq<Item>)
    requires Matches(b, ItemPattern(Nest(t, items)))
    requires RTA_HDRLEN + |ItemsPattern(items)| < U16_LIMIT
    ensures ReadLE16(b, 0) == RTA_HDRLEN + |ItemsPattern(items)|
    ensures ReadLE16(b, 2) == t
    ensures |b| == Align4(ReadLE16(b, 0))
    ensures Matches(b[RTA_HDRLEN..ReadLE16(b, 0)], ItemsPattern(items))
  {
    var n := RTA_HDRLEN + |ItemsPattern(items)|;
    NestHeader(b, t, ItemsPattern(items));
    assert n % U16_LIMIT == n;
    ReadLE16At(b, 0, n);
    ReadLE16At(b, 2, t);
    NestPayload(b, t, ItemsPattern(items));
  }

  /** The header of an encoded attribute: its unpadded length (truncated to 16 bits), then its type. */
  lemma NestHeader(b: seq<byte>, t: u16, payload: seq<Slot>)
    requires Matches(b, AttrPattern(t, payload))
    ensures b[0..2] == LE16((RTA_HDRLEN + |payload|) % U16_LIMIT)
    ensures b[2..4] == LE16(t)
  {
    var lengthField := LE16((RTA_HDRLEN + |payload|) % U16_LIMIT);
    var header := FixedSlots(lengthField) + FixedSlots(LE16(t));
    var pad := AnySlots(Align4(RTA_HDRLEN + |payload|) - (RTA_HDRLEN + |payload|));
    ConcatAssoc(header, payload, pad);
    MatchesSplit(b, header, payload + pad);
    var h := b[..RTA_HDRLEN];
    MatchesSplit(h, FixedSlots(lengthField), FixedSlots(LE16(t)));
    MatchesFixed(h[..2], lengthField);
    MatchesFixed(h[2..], LE16(t));
    assert b[0..2] == h[..2] && b[2..4] == h[2..];
  }

  /** The payload of an encoded attribute follows its 4-byte header. */
  lemma NestPayload(b: seq<byte>, t: u16, payload: seq<Slot>)
    requires Matches(b, AttrPattern(t, payload))
    ensures Matches(b[RTA_HDRLEN..RTA_HDRLEN + |payload|], payload)
  {
    var p := AttrPattern(t, payload);
    forall i | 0 <= i < |payload| && payload[i].Fixed?
      ensures b[RTA_HDRLEN..RTA_HDRLEN + |payload|][i] == payload[i].b
    {
      assert p[RTA_HDRLEN + i] == payload[i];
    }
  }

  /**
   * The staged request body while attributes are open: `levels[0]` holds the
   * top-level pieces and `levels[k + 1]` the pieces inside the k-th open
   * attribute, whose type is `types[k]` and whose length is not yet written.
   */
  function Body(levels: seq<seq<Item>>, types: seq<u16>): seq<Slot>
    requires |levels| == |types| + 1
    decreases |types|
  {
    if types == [] then ItemsPattern(levels[0])
    else
      Body(levels[..|levels| - 1], types[..|types| - 1]) + OpenHeader(types[|types| - 1])
        + ItemsPattern(levels[|levels| - 1])
  }

  /** The header of an attribute still open: its length bytes are not yet written. */
  function OpenHeader(t: u16): (p: seq<Slot>)
    ensures |p| == RTA_HDRLEN
  {
    AnySlots(2) + FixedSlots(LE16(t))
  }

  /** A request as handed to the kernel: header with its final length, then the body. */
  function SentPattern(head: seq<byte>, items: seq<Item>): seq<Slot>
    requires |head| == NLMSG_HDRLEN - 4
  {
    var total := NLMSG_HDRLEN + |ItemsPattern(items)|;
    FixedSlots(LE32(total % U32_LIMIT)) + FixedSlots(head) + ItemsPattern(items)
  }

  /** Number of attributes in a tree of pieces. */
  function NestCount(items: seq<Item>): nat
    decreases items
  {
    if items == [] then 0
    else (match items[0] case Raw(_) => 0 case Nest(_, sub) => 1 + NestCount(sub)) + NestCount(items[1..])
  }

  /** Greatest number of attributes open at once while the pieces are built. */
  function NestDepth(items: seq<Item>): nat
    decreases items
  {
    if items == [] then 0
    else
      var here := match items[0] case Raw(_) => 0 case Nest(_, sub) => 1 + NestDepth(sub);
      var rest := NestDepth(items[1..]);
      if here < rest then rest else here
  }

  /** Patterns of adjacent regions combine into the pattern of the whole. */
  lemma MatchesConcat(b1: seq<byte>, p1: seq<Slot>, b2: seq<byte>, p2: seq<Slot>)
    requires Matches(b1, p1) && Matches(b2, p2)
    ensures Matches(b1 + b2, p1 + p2)
  {
    forall i | 0 <= i < |p1 + p2| && (p1 + p2)[i].Fixed?
      ensures (b1 + b2)[i] == (p1 + p2)[i].b
    {
      if i >= |p1| {
        assert (b1 + b2)[i] == b2[i - |p1|];
        assert (p1 + p2)[i] == p2[i - |p1|];
      }
    }
  }

  lemma SliceRegions<T>(s: seq<T>, i: nat, j: nat, k: nat, l: nat)
    requires i <= j <= k <= l <= |s|
    ensures s == s[..i] + (s[i..j] + s[j..k] + s[k..l] + s[l..])
  {
    assert s[i..j] + s[j..k] == s[i..k];
    assert s[i..k] + s[k..l] == s[i..l];
    assert s[i..l] + s[l..] == s[i..];
  }

  lemma ConcatAssoc<T>(a: seq<T>, b: seq<T>, c: seq<T>)
    ensures a + (b + c) == a + b + c
  {
  }

  lemma ItemsPatternSingle(it: Item)
    ensures ItemsPattern([it]) == ItemPattern(it)
  {
    assert [it][1..] == [];
  }

  /** Appending a piece to the innermost open level extends the staged body by that piece's layout. */
  lemma {:induction false} BodyAppendItem(levels: seq<seq<Item>>, types: seq<u16>, it: Item)
    requires |levels| == |types| + 1
    ensures Body(levels[..|levels| - 1] + [levels[|levels| - 1] + [it]], types)
         == Body(levels, types) + ItemPattern(it)
  {
    var n := |levels|;
    var last := levels[n - 1];
    var grown := levels[..n - 1] + [last + [it]];
    assert grown[n - 1] == last + [it];
    ItemsPatternAppend(last, [it]);
    ItemsPatternSingle(it);
    if types != [] {
      var m := |types| - 1;
      var prefix := Body(levels[..n - 1], types[..m]) + OpenHeader(types[m]);
      assert grown[..n - 1] == levels[..n - 1];
      assert Body(grown, types) == prefix + (ItemsPattern(last) + ItemPattern(it));
      ConcatAssoc(prefix, ItemsPattern(last), ItemPattern(it));
    }
  }

  /** The staged tree once the innermost open attribute is closed: it becomes the last piece of the enclosing level. */
  function PopLevel(levels: seq<seq<Item>>, types: seq<u16>): (r: seq<seq<Item>>)
    requires |levels| == |types| + 1 && |types| >= 1
    ensures |r| == |types|
  {
    var d := |types|;
    levels[..d - 1] + [levels[d - 1] + [Nest(types[d - 1], levels[d])]]
  }

  /** Opening an attribute extends the staged body by an open header. */
  lemma BodyPush(levels: seq<seq<Item>>, types: seq<u16>, t: u16)
    requires |levels| == |types| + 1
    ensures Body(levels + [[]], types + [t]) == Body(levels, types) + OpenHeader(t)
  {
    assert (levels + [[]])[..|levels|] == levels;
    assert (types + [t])[..|types|] == types;
    assert ItemsPattern([]) == [];
  }

  /**
   * Closing the innermost attribute turns its open header and contents into a
   * finished attribute appended to the enclosing level.
   */
  lemma {:induction false} BodyClose(levels: seq<seq<Item>>, types: seq<u16>)
    requires |levels| == |types| + 1 && |types| >= 1
    ensures var d := |types|;
      Body(levels, types)
        == Body(levels[..d], types[..d - 1]) + OpenHeader(types[d - 1]) + ItemsPattern(levels[d])
    ensures var d := |types|;
      Body(PopLevel(levels, types), types[..d - 1])
        == Body(levels[..d], types[..d - 1]) + ItemPattern(Nest(types[d - 1], levels[d]))
  {
    var d := |types|;
    var outer := levels[..d];
    BodyAppendItem(outer, types[..d - 1], Nest(types[d - 1], levels[d]));
    assert outer[..d - 1] == levels[..d - 1];
    assert outer[d - 1] == levels[d - 1];
  }

  /** After a push: the old bytes, two unwritten length bytes, then the attribute type. */
  lemma MatchesOpen(b: seq<byte>, b2: seq<byte>, pre: seq<Slot>, t: u16)
    requires Matches(b, pre)
    requires |b2| == |b| + RTA_HDRLEN && b2[..|b|] == b && b2[|b| + 2..] == LE16(t)
    ensures Matches(b2, pre + OpenHeader(t))
  {
    assert b2 == b + b2[|b|..];
    MatchesConcat(b, pre, b2[|b|..], OpenHeader(t));
  }

  /** A region matching a concatenation splits into regions matching the parts. */
  lemma MatchesSplit(b: seq<byte>, p1: seq<Slot>, p2: seq<Slot>)
    requires Matches(b, p1 + p2)
    ensures Matches(b[..|p1|], p1) && Matches(b[|p1|..], p2)
  {
    forall i | 0 <= i < |p2| && p2[i].Fixed?
      ensures b[|p1|..][i] == p2[i].b
    {
      assert (p1 + p2)[|p1| + i] == p2[i];
    }
    forall i | 0 <= i < |p1| && p1[i].Fixed?
      ensures b[..|p1|][i] == p1[i].b
    {
      assert (p1 + p2)[i] == p1[i];
    }
  }

  /** Fixed slots pin the bytes down completely. */
  lemma MatchesFixed(b: seq<byte>, s: seq<byte>)
    requires |b| == |s|
    ensures Matches(b, FixedSlots(s)) <==> b == s
  {
    if Matches(b, FixedSlots(s)) {
      forall i | 0 <= i < |b|
        ensures b[i] == s[i]
      {
        assert FixedSlots(s)[i] == Fixed(s[i]);
      }
    }
  }

  /** Unwritten slots accept any bytes. */
  lemma MatchesAny(b: seq<byte>, n: nat)
    requires |b| == n
    ensures Matches(b, AnySlots(n))
  {
  }

  /**
   * After a pop: the bytes before the attribute are untouched, its length
   * field is written, its type and contents are untouched, and the padding
   * is whatever the buffer held.
   */
  lemma MatchesClose(b: seq<byte>, b2: seq<byte>, pre: seq<Slot>, t: u16, items: seq<Item>)
    requires Matches(b, pre + OpenHeader(t) + ItemsPattern(items))
    requires |b2| == |pre| + |ItemPattern(Nest(t, items))|
    requires b2[..|pre|] == b[..|pre|]
    requires b2[|pre|..|pre| + 2] == LE16((RTA_HDRLEN + |ItemsPattern(items)|) % U16_LIMIT)
    requires b2[|pre| + 2..|b|] == b[|pre| + 2..]
    ensures Matches(b2, pre + ItemPattern(Nest(t, items)))
  {
    var body := ItemsPattern(items);
    var n := |pre|;
    var lenField := LE16((RTA_HDRLEN + |body|) % U16_LIMIT);
    var pad := AnySlots(Align4(RTA_HDRLEN + |body|) - (RTA_HDRLEN + |body|));
    // the old bytes: prefix, open header (two unwritten bytes, then the type), contents
    MatchesSplit(b, pre + OpenHeader(t), body);
    MatchesSplit(b[..n + RTA_HDRLEN], pre, OpenHeader(t));
    MatchesSplit(b[..n + RTA_HDRLEN][n..], AnySlots(2), FixedSlots(LE16(t)));
    var typeBytes := b[..n + RTA_HDRLEN][n..][2..];
    MatchesFixed(typeBytes, LE16(t));
    // the new bytes, region by region
    var r0, r1, r2, r3, r4 := b2[..n], b2[n..n + 2], b2[n + 2..n + RTA_HDRLEN], b2[n + RTA_HDRLEN..|b|], b2[|b|..];
    assert r0 == b[..n + RTA_HDRLEN][..n];
    assert typeBytes == b[n + 2..][..2];
    assert |b| >= n + RTA_HDRLEN;
    assert r2 == b2[n + 2..|b|][..2] by {
      forall k | 0 <= k < 2
        ensures r2[k] == b2[n + 2..|b|][k]
      {
      }
    }
    assert r3 == b[n + RTA_HDRLEN..];
    MatchesFixed(r1, lenField);
    MatchesFixed(r2, LE16(t));
    MatchesAny(r4, |pad|);
    MatchesConcat(r1, FixedSlots(lenField), r2, FixedSlots(LE16(t)));
    MatchesConcat(r1 + r2, FixedSlots(lenField) + FixedSlots(LE16(t)), r3, body);
    MatchesConcat(r1 + r2 + r3, FixedSlots(lenField) + FixedSlots(LE16(t)) + body, r4, pad);
    MatchesConcat(r0, pre, r1 + r2 + r3 + r4, ItemPattern(Nest(t, items)));
    SliceRegions(b2, n, n + 2, n + RTA_HDRLEN, |b|);
  }

  /** The bytes handed to the kernel: the header length written over the staged request. */
  lemma MatchesSent(b: seq<byte>, sent: seq<byte>, head: seq<byte>, items: seq<Item>)
    requires |head| == NLMSG_HDRLEN - 4
    requires Matches(b, AnySlots(4) + FixedSlots(head) + ItemsPattern(items))
    requires |sent| == |b| && sent[..4] == LE32(|b| % U32_LIMIT) && sent[4..] == b[4..]
    ensures Matches(sent, SentPattern(head, items))
  {
    var p := AnySlots(4) + FixedSlots(head) + ItemsPattern(items);
    var q := SentPattern(head, items);
    forall i | 0 <= i < |q| && q[i].Fixed?
      ensures sent[i] == q[i].b
    {
      if i < 4 {
        assert sent[i] == sent[..4][i];
      } else {
        assert q[i] == p[i];
        assert sent[i] == sent[4..][i - 4] == b[4..][i - 4] == b[i];
      }
    }
  }

  // ---------------------------------------------------------------------
  // Talking to the kernel

  /** Outcome of one `sendmsg` call. */
  datatype SendAttempt = Sent | SendFailed(errno: int)

  datatype Transmission = Transmitted | TransmitError(errno: int) | TransmitPending

  /**
   * The send loop: failures with EAGAIN or EINTR are retried, any other failure
   * ends the exchange with errno.  `TransmitPending` means every attempt the
   * environment provided failed transiently and the loop would keep retrying.
   */
  function Transmit(attempts: seq<SendAttempt>): Transmission
  {
    if attempts == [] then TransmitPending
    else match attempts[0]
      case Sent => Transmitted
      case SendFailed(e) => if e == EAGAIN || e == EINTR then Transmit(attempts[1..]) else TransmitError(e)
  }

  predicate Transient(a: SendAttempt) {
    a.SendFailed? && (a.errno == EAGAIN || a.errno == EINTR)
  }

  /** The request goes out exactly when some attempt succeeds and every earlier one failed transiently. */
  lemma {:induction false} TransmittedIff(attempts: seq<SendAttempt>)
    ensures Transmit(attempts) == Transmitted <==>
      exists i :: 0 <= i < |attempts| && attempts[i] == Sent && forall j :: 0 <= j < i ==> Transient(attempts[j])
    ensures Transmit(attempts).TransmitError? ==>
      var e := Transmit(attempts).errno;
      e != EAGAIN && e != EINTR && SendFailed(e) in attempts
  {
    if attempts != [] {
      TransmittedIff(attempts[1..]);
      if Transmit(attempts) == Transmitted && attempts[0] != Sent {
        var i :| 0 <= i < |attempts[1..]| && attempts[1..][i] == Sent
          && forall j :: 0 <= j < i ==> Transient(attempts[1..][j]);
        assert attempts[i + 1] == Sent;
        assert forall j :: 0 <= j < i + 1 ==> Transient(attempts[j]) by {
          forall j | 0 <= j < i + 1 ensures Transient(attempts[j]) {
            if j > 0 { assert attempts[j] == attempts[1..][j - 1]; }
          }
        }
      }
      if exists i :: 0 <= i < |attempts| && attempts[i] == Sent && forall j :: 0 <= j < i ==> Transient(attempts[j]) {
        var i :| 0 <= i < |attempts| && attempts[i] == Sent && forall j :: 0 <= j < i ==> Transient(attempts[j]);
        if i > 0 {
          assert attempts[1..][i - 1] == Sent;
          assert forall j :: 0 <= j < i - 1 ==> Transient(attempts[1..][j]) by {
            forall j | 0 <= j < i - 1 ensures Transient(attempts[1..][j]) {
              assert attempts[1..][j] == attempts[j + 1];
            }
          }
        }
      }
    }
  }

  /** The `sendmsg` retry loop shared by both generations. */
  method SendRetry(attempts: seq<SendAttempt>) returns (t: Transmission)
    ensures t == Transmit(attempts)
  {
    var i := 0;
    while i < |attempts|
      invariant 0 <= i <= |attempts|
      invariant Transmit(attempts) == Transmit(attempts[i..])
    {
      assert attempts[i..][1..] == attempts[i + 1..];
      match attempts[i]
      case Sent =>
        return Transmitted;
      case SendFailed(e) =>
        if !(e == EAGAIN || e == EINTR) {
          return TransmitError(e);
        }
      i := i + 1;
    }
    return TransmitPending;
  }

  /**
   * A received netlink message, decoded: header fields, for NLMSG_ERROR the
   * error code, and the payload after the header that the handler is given
   * with its length.
   */
  datatype NlMsg = NlMsg(msgType: u16, flags: bv16, seqNo: u32, error: int, payload: seq<byte>)

  /** An NLMSG_ERROR message reporting a failure (error code 0 is an acknowledgement). */
  predicate KernelError(m: NlMsg) {
    m.msgType == NLMSG_ERROR && m.error != 0
  }

  /** Outcome of one `recvmsg` call. */
  datatype RecvEvent =
    | RecvFailed(errno: int)                         // recvmsg returned -1
    | Closed                                         // recvmsg returned 0
    | Datagram(nameLen: nat, msgs: seq<NlMsg>)       // the messages NLMSG_OK/NLMSG_NEXT walk over

  /**
   * Whether a failed `recvmsg` is retried.  The code compares the return value,
   * which is -1, with ENOBUFS and EAGAIN, so only errno == EINTR leads to a retry.
   */
  function RecvRetried(errno: int): (r: bool)
    ensures r <==> errno == EINTR
  {
    var res := -1;
    res == ENOBUFS || res == EAGAIN || errno == EINTR
  }

  /**
   * How an exchange ends: the value `nlSendMessage` returns, or `Waiting` when
   * the environment's events ran out while the code would still be blocked.
   */
  datatype Exchange = Returned(code: int) | Waiting

  /** An exchange outcome together with the messages handed to the handler, in order. */
  datatype Response = Response(outcome: Exchange, delivered: seq<NlMsg>)

  /** Messages delivered by earlier datagrams come before those of the rest of the exchange. */
  function Prepend(d: seq<NlMsg>, r: Response): Response {
    Response(r.outcome, d + r.delivered)
  }

  lemma PrependConcat(a: seq<NlMsg>, b: seq<NlMsg>, r: Response)
    ensures Prepend(a, Prepend(b, r)) == Prepend(a + b, r)
  {
    assert a + (b + r.delivered) == a + b + r.delivered;
  }

  /**
   * The handler accepted every message it saw but possibly the last, and a
   * rejected last message is what the exchange returned.
   */
  predicate AcceptedUntilLast(h: Handler, r: Response) {
    && (forall i | 0 <= i < |r.delivered| - 1 :: Accepts(h, r.delivered[i]))
    && (r.delivered != [] && !Accepts(h, r.delivered[|r.delivered| - 1]) ==>
          h.Some? && r.outcome == Returned(h.value(r.delivered[|r.delivered| - 1])))
  }

  /** Messages all accepted, delivered before the rest of an exchange, keep that property. */
  lemma AcceptedPrepend(h: Handler, d: seq<NlMsg>, r: Response)
    requires forall i | 0 <= i < |d| :: Accepts(h, d[i])
    requires AcceptedUntilLast(h, r)
    ensures AcceptedUntilLast(h, Prepend(d, r))
  {
    var all := d + r.delivered;
    assert forall i | |d| <= i < |all| :: all[i] == r.delivered[i - |d|];
  }

  /** The messages carried by the datagrams among `events`, in order. */
  function Carried(events: seq<RecvEvent>): seq<NlMsg>
    decreases |events|
  {
    if events == [] then []
    else (if events[0].Datagram? then events[0].msgs else []) + Carried(events[1..])
  }

  /** The handler passed to `nlSendMessage`, or None for NULL. */
  type Handler = Option<NlMsg -> int>

  /** Handlers are pure here: each sees only the message, payload included, and a NULL handler sees nothing. */
  predicate Accepts(h: Handler, m: NlMsg) {
    h.Some? && h.value(m) == 0
  }

  /**
   * The messages `d` the handler saw are the messages `all` meant for it, in
   * order: all of them, or a prefix of them that ends with one it rejected.
   */
  predicate HandedOver(h: Handler, d: seq<NlMsg>, all: seq<NlMsg>) {
    d <= all && (d == all || (d != [] && !Accepts(h, d[|d| - 1])))
  }

  /** Messages handed over before the rest of a handing over keep it one. */
  lemma HandedOverAppend(h: Handler, d: seq<NlMsg>, e: seq<NlMsg>, all: seq<NlMsg>)
    requires HandedOver(h, e, all)
    ensures HandedOver(h, d + e, d + all)
  {
    if e != [] {
      assert (d + e)[|d + e| - 1] == e[|e| - 1];
    }
  }

  /** A handing over that ended at a rejection stays one whatever is meant to come after. */
  lemma HandedOverPrefix(h: Handler, d: seq<NlMsg>, all: seq<NlMsg>, later: seq<NlMsg>)
    requires HandedOver(h, d, all)
    requires d == all && later != [] ==> d != [] && !Accepts(h, d[|d| - 1])
    ensures HandedOver(h, d, all + later)
  {
    assert all + [] == all;
  }
}
