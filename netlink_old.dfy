// The rtnetlink client of the older code base (src/netlink.c): the same
// split into a shared scratch buffer, grown with realloc, and a context per
// socket, with its own response loop.

module NetlinkOld {
  import opened Base
  import opened NlWire
  import opened NlBuild
  import opened NetlinkOldReceive

  /**
   * The scratch buffer shared by all contexts (msgBuffer, msgBufferLen,
   * msgBufferCap).  The array is the block; its length is the capacity.
   */
  class MsgBuffer {
    var data: array<byte>
    var len: nat

    ghost predicate Valid()
      reads this
    {
      len <= data.Length
    }

    /** nlInit does nothing: the static buffer starts out NULL, with no capacity and no bytes. */
    constructor ()
      ensures Valid() && len == 0 && data.Length == 0
    {
      data := new byte[0];
      len := 0;
    }

    /**
     * nlReserveSpace: when `amount` more bytes do not fit, the block is
     * reallocated to twice the requested size, and every byte of the old
     * block survives the move.
     */
    method Reserve(amount: nat)
      requires Valid()
      modifies this
      ensures Valid() && len == old(len)
      ensures data.Length == if old(data.Length) < old(len) + amount then 2 * (old(len) + amount) else old(data.Length)
      ensures len + amount <= data.Length && data.Length >= old(data.Length)
      ensures data[..old(data.Length)] == old(data[..])
      ensures data == old(data) || fresh(data)
    {
      var capacity := len + amount;
      if data.Length < capacity {
        var newCapacity := capacity * 2;
        var block := new byte[newCapacity];
        forall i | 0 <= i < data.Length {
          block[i] := data[i];
        }
        data := block;
      }
    }

    /** nlCommitSpace: reserved bytes become part of the message. */
    method Commit(amount: nat)
      requires len + amount <= data.Length
      modifies this`len
      ensures Valid() && len == old(len) + amount
    {
      len := len + amount;
    }

    /** nlResetSpace: the buffer is emptied, then room for `initialCapacity` bytes is reserved. */
    method Reset(initialCapacity: nat)
      requires Valid()
      modifies this
      ensures Valid() && len == 0
      ensures data.Length == if old(data.Length) < initialCapacity then 2 * initialCapacity else old(data.Length)
      ensures data[..old(data.Length)] == old(data[..])
      ensures data == old(data) || fresh(data)
    {
      len := 0;
      Reserve(initialCapacity);
    }

    /**
     * Reserve room for `gap` bytes, left as they are, followed by `bytes`;
     * store `bytes` and commit both.  nlBufferAppend is the case without a
     * gap, nlPushAttr writes the type after a gap of two length bytes, and
     * nlPopAttr's padding is a gap without bytes.
     */
    method Extend(gap: nat, bytes: seq<byte>)
      requires Valid()
      modifies this, data
      ensures Valid() && len == old(len) + gap + |bytes|
      ensures data[..old(len)] == old(data[..len])
      ensures data[old(len) + gap..len] == bytes
      ensures data.Length >= old(data.Length)
      ensures data == old(data) || fresh(data)
    {
      var start := len;
      Reserve(gap + |bytes|);
      Put(start + gap, bytes);
      Commit(gap + |bytes|);
    }

    /**
     * The buffer side of nlPopAttr: the attribute whose header starts at
     * `pos` gets its length (header plus payload, truncated to 16 bits)
     * written into rta_len, then the message is padded so that the attribute
     * spans a multiple of 4 bytes.
     */
    method CloseAttr(pos: nat)
      requires Valid() && pos + RTA_HDRLEN <= len
      modifies this, data
      ensures Valid() && (data == old(data) || fresh(data))
      ensures len == pos + Align4(old(len) - pos)
      ensures data[..old(len)] == old(data[..len])[..pos] + LE16((old(len) - pos) % U16_LIMIT) + old(data[..len])[pos + 2..]
    {
      var payloadLen := len - (pos + RTA_HDRLEN);
      ghost var before := data[..len];
      ghost var full := data[..];
      var lengthField := LE16((RTA_HDRLEN + payloadLen) % U16_LIMIT);
      Put(pos, lengthField);
      SpliceTake(full, pos, lengthField, len);
      assert data[..len] == data[..][..len];
      assert before == full[..len];
      ghost var written := data[..len];
      var paddingDeficit := Align4(RTA_HDRLEN + payloadLen) - (len - pos);
      if paddingDeficit > 0 {
        Extend(paddingDeficit, []);
      }
      assert data[..|before|] == written;
    }

    /** A store of `bytes` at offset `off` of the block (a header field or copied payload). */
    method Put(off: nat, bytes: seq<byte>)
      requires off + |bytes| <= data.Length
      modifies data
      ensures data[..] == old(data[..])[..off] + bytes + old(data[..])[off + |bytes|..]
    {
      forall i | off <= i < off + |bytes| {
        data[i] := bytes[i - off];
      }
    }
  }

  /**
   * An rtnetlink socket (nlContext): the next sequence number, the port id
   * the kernel assigned, and the positions of the attributes still open.
   * The ghost fields describe the request being built: the header bytes
   * after the length field, and the attribute tree with one level per open
   * attribute (see `Body`).
   */
  class Context {
    var nextSeq: u32
    var pid: u32
    const attrNestPos: array<nat>
    var attrDepth: nat
    ghost var head: seq<byte>
    ghost var levels: seq<seq<Item>>
    ghost var types: seq<u16>

    /** The allocation of an nlContext; nlNewContextInPlace fills it in. */
    constructor ()
      ensures attrNestPos.Length == MAX_ATTR_NEST && fresh(attrNestPos)
    {
      attrNestPos := new nat[MAX_ATTR_NEST];
    }

    /**
     * nlNewContextInPlace.  Opening, binding and querying the socket are not
     * modelled: `setupErr` is the errno of the step that failed (0 when all
     * succeed) and `assignedPid` the port id the kernel chose.
     */
    method OpenInPlace(setupErr: int, assignedPid: u32) returns (res: int)
      modifies this
      ensures res == setupErr
      ensures res == 0 ==> nextSeq == 0 && pid == assignedPid
    {
      if setupErr != 0 {
        return setupErr;
      }
      pid := assignedPid;
      nextSeq := 0;
      return 0;
    }

    /**
     * The request under construction: the buffer holds the header (whose
     * length field is written only when sending) followed by the staged
     * body, and each open attribute's recorded position is where its header
     * starts.
     */
    ghost predicate Building(mb: MsgBuffer)
      reads this, attrNestPos, mb, mb.data
    {
      && mb.Valid()
      && attrNestPos.Length == MAX_ATTR_NEST
      && attrDepth <= MAX_ATTR_NEST
      && attrDepth == |types|
      && Wellformed(mb.data[..mb.len], head, levels, types, attrNestPos[..attrDepth])
    }

    /**
     * nlInitMessage: the buffer is reset to an empty header carrying the type,
     * the flags with NLM_F_REQUEST added, the next sequence number and the
     * port id; the sequence counter advances with 32-bit wrap-around.
     */
    method InitMessage(mb: MsgBuffer, msgType: u16, msgFlags: bv16)
      requires mb.Valid() && attrNestPos.Length == MAX_ATTR_NEST
      modifies this, mb, mb.data
      ensures Building(mb)
      ensures mb.data == old(mb.data) || fresh(mb.data)
      ensures attrDepth == 0 && levels == [[]] && types == [] && mb.len == NLMSG_HDRLEN
      ensures head == HeaderTail(msgType, NLM_F_REQUEST | msgFlags, old(nextSeq), old(pid))
      ensures nextSeq == (old(nextSeq) + 1) % U32_LIMIT && pid == old(pid)
    {
      mb.Reset(NLMSG_HDRLEN);
      attrDepth := 0;
      // nlmsg_type, nlmsg_flags, nlmsg_seq and nlmsg_pid, one after the other
      var h := HeaderTail(msgType, NLM_F_REQUEST | msgFlags, nextSeq, pid);
      mb.Put(4, h);
      nextSeq := (nextSeq + 1) % U32_LIMIT;
      mb.Commit(NLMSG_HDRLEN);
      head := h;
      levels := [[]];
      types := [];
      assert mb.data[..mb.len][4..16] == h;
      HeaderWellformed(mb.data[..mb.len], h);
      assert attrNestPos[..attrDepth] == [];
    }

    /** nlBufferAppend: the bytes are copied to the end of the message, inside the innermost open attribute. */
    method BufferAppend(mb: MsgBuffer, bytes: seq<byte>)
      requires Building(mb)
      modifies this, mb, mb.data
      ensures Building(mb)
      ensures mb.data == old(mb.data) || fresh(mb.data)
      ensures mb.len == old(mb.len) + |bytes|
      ensures mb.data[..mb.len] == old(mb.data[..mb.len]) + bytes
      ensures levels == old(levels[..attrDepth] + [levels[attrDepth] + [Raw(bytes)]])
      ensures types == old(types) && head == old(head) && attrDepth == old(attrDepth)
      ensures nextSeq == old(nextSeq) && pid == old(pid)
    {
      ghost var before := mb.data[..mb.len];
      mb.Extend(0, bytes);
      assert mb.data[..mb.len] == before + bytes;
      AppendWellformed(before, head, levels, types, attrNestPos[..attrDepth], bytes);
      levels := levels[..attrDepth] + [levels[attrDepth] + [Raw(bytes)]];
    }

    /**
     * nlPushAttr: opens an attribute of type `t` at the end of the message.
     * Beyond MAX_ATTR_NEST open attributes the call fails with -1 and changes
     * nothing.
     */
    method PushAttr(mb: MsgBuffer, t: u16) returns (r: int)
      requires Building(mb)
      modifies this, attrNestPos, mb, mb.data
      ensures Building(mb)
      ensures mb.data == old(mb.data) || fresh(mb.data)
      ensures old(attrDepth) >= MAX_ATTR_NEST ==>
        r == -1 && unchanged(this) && unchanged(attrNestPos) && unchanged(mb) && unchanged(mb.data)
      ensures old(attrDepth) < MAX_ATTR_NEST ==>
        && r == 0
        && attrDepth == old(attrDepth) + 1
        && attrNestPos[old(attrDepth)] == old(mb.len)
        && mb.len == old(mb.len) + RTA_HDRLEN
        && levels == old(levels) + [[]]
        && types == old(types) + [t]
      ensures head == old(head) && nextSeq == old(nextSeq) && pid == old(pid)
    {
      if attrDepth >= MAX_ATTR_NEST {
        return -1;
      }
      ghost var before := mb.data[..mb.len];
      ghost var positions := attrNestPos[..attrDepth];
      ghost var (levels0, types0) := (levels, types);
      attrNestPos[attrDepth] := mb.len;
      attrDepth := attrDepth + 1;
      levels := levels0 + [[]];
      types := types0 + [t];
      mb.Extend(2, LE16(t));
      assert attrNestPos[..attrDepth] == positions + [|before|];
      assert mb.data[..mb.len][..|before|] == before;
      assert mb.data[..mb.len][|before| + 2..] == LE16(t);
      PushWellformed(before, mb.data[..mb.len], head, levels0, types0, positions, t);
      return 0;
    }

    /**
     * nlPopAttr: closes the innermost open attribute.  Its length field gets
     * 4 plus the payload length (truncated to 16 bits) and the message is
     * padded to the next multiple of 4 after the attribute's start.  With no
     * attribute open the call fails with -1 and changes nothing.
     */
    method PopAttr(mb: MsgBuffer) returns (r: int)
      requires Building(mb)
      modifies this, mb, mb.data
      ensures Building(mb)
      ensures mb.data == old(mb.data) || fresh(mb.data)
      ensures old(attrDepth) == 0 ==>
        r == -1 && unchanged(this) && unchanged(mb) && unchanged(mb.data)
      ensures old(attrDepth) > 0 ==>
        && r == 0
        && attrDepth == old(attrDepth) - 1
        && var pos := attrNestPos[attrDepth];
        && pos + RTA_HDRLEN <= old(mb.len)
        && mb.len == pos + Align4(old(mb.len) - pos)
        && levels == PopLevel(old(levels), old(types))
        && types == old(types[..attrDepth - 1])
      ensures head == old(head) && nextSeq == old(nextSeq) && pid == old(pid)
    {
      if attrDepth == 0 {
        return -1;
      }
      CloseInnermost(mb);
      return 0;
    }

    /** The work of nlPopAttr once an attribute is known to be open. */
    method CloseInnermost(mb: MsgBuffer)
      requires Building(mb) && attrDepth > 0
      modifies this, mb, mb.data
      ensures Building(mb)
      ensures mb.data == old(mb.data) || fresh(mb.data)
      ensures attrDepth == old(attrDepth) - 1
      ensures var pos := attrNestPos[attrDepth];
        && pos + RTA_HDRLEN <= old(mb.len)
        && mb.len == pos + Align4(old(mb.len) - pos)
      ensures levels == PopLevel(old(levels), old(types))
      ensures types == old(types[..attrDepth - 1])
      ensures head == old(head) && nextSeq == old(nextSeq) && pid == old(pid)
    {
      ghost var before := mb.data[..mb.len];
      ghost var positions := attrNestPos[..attrDepth];
      ghost var (levels0, types0) := (levels, types);
      PopPosition(before, head, levels0, types0, positions);
      attrDepth := attrDepth - 1;
      levels := PopLevel(levels0, types0);
      types := types0[..attrDepth];
      var pos := attrNestPos[attrDepth];
      assert pos == positions[attrDepth] && pos + RTA_HDRLEN <= |before|;
      mb.CloseAttr(pos);
      PopWellformed(before, mb.data[..mb.len], head, levels0, types0, positions);
      assert attrNestPos[..attrDepth] == positions[..attrDepth];
    }

    /**
     * nlSendMessage.  With an attribute still open the call fails with -1.
     * Otherwise the header's length field is written and the request goes
     * out (`sent`); `attempts` are the results of the successive sendmsg
     * calls and `events` those of the recvmsg calls.  When a response is
     * awaited the buffer is reset to receive into it.
     */
    method SendMessage(mb: MsgBuffer, waitResponse: bool, handler: Handler,
                       attempts: seq<SendAttempt>, events: seq<RecvEvent>)
      returns (resp: Response, sent: seq<byte>)
      requires Building(mb)
      modifies mb, mb.data
      ensures attrDepth > 0 ==>
        resp == Response(Returned(-1), []) && sent == [] && unchanged(mb) && unchanged(mb.data)
      ensures attrDepth == 0 ==>
        && |sent| == old(mb.len)
        && Matches(sent, SentPattern(head, levels[0]))
        && resp == SendOutcome(waitResponse, handler, ReadLE32(head, 4), attempts, events)
      ensures attrDepth == 0 && waitResponse && Transmit(attempts) == Transmitted ==>
        mb.len == 0 && mb.data.Length >= RECV_BUFFER_SIZE
    {
      if attrDepth > 0 {
        return Response(Returned(-1), []), [];
      }
      ghost var before := mb.data[..mb.len];
      mb.Put(0, LE32(mb.len % U32_LIMIT));
      sent := mb.data[..mb.len];
      assert sent[..4] == LE32(|before| % U32_LIMIT);
      assert sent[4..] == before[4..];
      assert Body(levels, types) == ItemsPattern(levels[0]);
      MatchesSent(before, sent, head, levels[0]);
      var seqNo := ReadLE32(sent, 8);
      SentSeqNo(sent, head, levels[0]);
      var t := SendRetry(attempts);
      match t {
        case TransmitError(e) =>
          return Response(Returned(e), []), sent;
        case TransmitPending =>
          return Response(Waiting, []), sent;
        case Transmitted =>
      }
      if !waitResponse {
        return Response(Returned(0), []), sent;
      }
      mb.Reset(RECV_BUFFER_SIZE);
      resp := ReceiveResponses(seqNo, handler, events);
    }
  }

  // ---------------------------------------------------------------------
  // Opening a context

  /**
   * nlNewContext as written: the success branch returns 0 instead of the new
   * context, so the caller never receives one.  On failure the error code
   * is reported through `err`.
   */
  method NewContextAsWritten(setupErr: int, assignedPid: u32) returns (ctx: Context?, err: Option<int>)
    ensures ctx == null
    ensures err == if setupErr == 0 then None else Some(setupErr)
  {
    var c := new Context();
    var res := c.OpenInPlace(setupErr, assignedPid);
    if res == 0 {
      return null, None;
    }
    return null, Some(res);
  }

  /** nlNewContext as intended: the new context on success, NULL and the error code otherwise. */
  method NewContext(setupErr: int, assignedPid: u32) returns (ctx: Context?, err: Option<int>)
    ensures (ctx != null) <==> setupErr == 0
    ensures ctx != null ==>
      fresh(ctx) && ctx.nextSeq == 0 && ctx.pid == assignedPid && ctx.attrNestPos.Length == MAX_ATTR_NEST
    ensures err == if setupErr == 0 then None else Some(setupErr)
  {
    var c := new Context();
    var res := c.OpenInPlace(setupErr, assignedPid);
    if res == 0 {
      return c, None;
    }
    return null, Some(res);
  }
}
