// The response side of nlSendMessage in the newer code base
// (src/common/lib/netlink.c): the loop that reads datagrams from the socket
// and walks the messages in each, until the response is complete.

module NetlinkNewReceive {
  import opened Base
  import opened NlWire

  /** What sending leads to: an error, no wait, or the response loop. */
  function SendOutcome(waitResponse: bool, handler: Handler, seqNo: u32,
                       attempts: seq<SendAttempt>, events: seq<RecvEvent>): (r: Response)
    ensures Transmit(attempts).TransmitError? ==> r == Response(Returned(Transmit(attempts).errno), [])
    ensures Transmit(attempts).TransmitPending? ==> r == Response(Waiting, [])
    ensures Transmit(attempts).Transmitted? && !waitResponse ==> r == Response(Returned(0), [])
  {
    match Transmit(attempts)
    case TransmitError(e) => Response(Returned(e), [])
    case TransmitPending => Response(Waiting, [])
    case Transmitted =>
      if waitResponse then Receive(events, seqNo, handler, false) else Response(Returned(0), [])
  }

  /**
   * The result of walking the messages of one datagram: the loop returned
   * `code`, or it reached the end with the given `keepReading` and
   * `multiPartResponse` flags.  Either way `delivered` lists the messages the
   * handler saw.
   */
  datatype Batch =
    | Aborted(code: int, delivered: seq<NlMsg>)
    | Read(keepReading: bool, multiPart: bool, delivered: seq<NlMsg>)

  /** Messages handed to the handler earlier come first. */
  function DeliverAll(d: seq<NlMsg>, b: Batch): Batch {
    match b
    case Aborted(c, rest) => Aborted(c, d + rest)
    case Read(k, m, rest) => Read(k, m, d + rest)
  }

  /** A message that belongs to the response: not NLMSG_NOOP, and carrying the request's sequence number. */
  predicate Relevant(m: NlMsg, seqNo: u32) {
    m.msgType != NLMSG_NOOP && m.seqNo == seqNo
  }

  /** A relevant message after which no further datagram is read: one without NLM_F_MULTI, or NLMSG_DONE. */
  predicate Final(m: NlMsg) {
    m.flags & NLM_F_MULTI == 0 || m.msgType == NLMSG_DONE
  }

  /**
   * The inner loop of nlSendMessage over one datagram.  NLMSG_NOOP and
   * messages with another sequence number are skipped; a kernel error ends
   * the exchange with its negation; a message without NLM_F_MULTI stops the
   * reading after this datagram, one with it marks the response as
   * multi-part; NLMSG_DONE of a multi-part response stops the reading too,
   * any other message goes to the handler, whose non-zero result ends the
   * exchange.
   */
  function ProcessDatagram(msgs: seq<NlMsg>, seqNo: u32, handler: Handler, keepReading: bool, multiPart: bool): Batch
    decreases |msgs|
  {
    if msgs == [] then Read(keepReading, multiPart, [])
    else
      var m := msgs[0];
      if !Relevant(m, seqNo) then
        ProcessDatagram(msgs[1..], seqNo, handler, keepReading, multiPart)
      else if KernelError(m) then
        Aborted(-m.error, [])
      else
        var single := m.flags & NLM_F_MULTI == 0;
        var keep := if single then false else keepReading;
        var multi := if single then multiPart else true;
        if multi && m.msgType == NLMSG_DONE then
          ProcessDatagram(msgs[1..], seqNo, handler, false, multi)
        else if handler.None? then
          ProcessDatagram(msgs[1..], seqNo, handler, keep, multi)
        else if handler.value(m) != 0 then
          Aborted(handler.value(m), [m])
        else
          DeliverAll([m], ProcessDatagram(msgs[1..], seqNo, handler, keep, multi))
  }

  /**
   * The outer loop of nlSendMessage: reads datagrams until a message ends the
   * response.  A failed read is retried only on EINTR; a closed socket or a
   * sender address of the wrong size ends the exchange with -1.
   */
  function Receive(events: seq<RecvEvent>, seqNo: u32, handler: Handler, multiPart: bool): Response
    decreases |events|
  {
    if events == [] then Response(Waiting, [])
    else
      match events[0]
      case RecvFailed(e) =>
        if RecvRetried(e) then Receive(events[1..], seqNo, handler, multiPart) else Response(Returned(e), [])
      case Closed => Response(Returned(-1), [])
      case Datagram(nameLen, msgs) =>
        if nameLen != SOCKADDR_NL_LEN then Response(Returned(-1), [])
        else
          match ProcessDatagram(msgs, seqNo, handler, true, multiPart)
          case Aborted(code, d) => Response(Returned(code), d)
          case Read(keep, multi, d) =>
            if keep then Prepend(d, Receive(events[1..], seqNo, handler, multi)) else Response(Returned(0), d)
  }

  lemma DeliverAllConcat(a: seq<NlMsg>, b: seq<NlMsg>, x: Batch)
    ensures DeliverAll(a, DeliverAll(b, x)) == DeliverAll(a + b, x)
  {
    assert a + (b + x.delivered) == a + b + x.delivered;
  }

  /** The loop over the messages of one datagram, as nlSendMessage runs it. */
  method ProcessMessages(msgs: seq<NlMsg>, seqNo: u32, handler: Handler, multiPartIn: bool) returns (b: Batch)
    ensures b == ProcessDatagram(msgs, seqNo, handler, true, multiPartIn)
  {
    var keepReading := true;
    var multiPart := multiPartIn;
    var delivered: seq<NlMsg> := [];
    var j := 0;
    while j < |msgs|
      invariant 0 <= j <= |msgs|
      invariant ProcessDatagram(msgs, seqNo, handler, true, multiPartIn)
             == DeliverAll(delivered, ProcessDatagram(msgs[j..], seqNo, handler, keepReading, multiPart))
    {
      var m := msgs[j];
      assert msgs[j..][1..] == msgs[j + 1..];
      j := j + 1;
      if m.msgType == NLMSG_NOOP {
        continue;
      }
      if m.seqNo != seqNo {
        continue;
      }
      if m.msgType == NLMSG_ERROR && m.error != 0 {
        return Aborted(-m.error, delivered);
      }
      if m.flags & NLM_F_MULTI == 0 {
        keepReading := false;
      } else {
        multiPart := true;
      }
      if multiPart && m.msgType == NLMSG_DONE {
        keepReading := false;
      } else if handler.Some? {
        var userError := handler.value(m);
        DeliverAllConcat(delivered, [m], ProcessDatagram(msgs[j..], seqNo, handler, keepReading, multiPart));
        delivered := delivered + [m];
        if userError != 0 {
          return Aborted(userError, delivered);
        }
      }
    }
    return Read(keepReading, multiPart, delivered);
  }

  /** The response loop of nlSendMessage, reading `events` in order. */
  method ReceiveResponses(seqNo: u32, handler: Handler, events: seq<RecvEvent>) returns (resp: Response)
    ensures resp == Receive(events, seqNo, handler, false)
  {
    var delivered: seq<NlMsg> := [];
    var keepReading := true;
    var multiPart := false;
    var i := 0;
    while keepReading
      invariant 0 <= i <= |events|
      invariant keepReading ==>
        Receive(events, seqNo, handler, false) == Prepend(delivered, Receive(events[i..], seqNo, handler, multiPart))
      invariant !keepReading ==> Receive(events, seqNo, handler, false) == Response(Returned(0), delivered)
      decreases |events| - i, keepReading
    {
      if i == |events| {
        return Response(Waiting, delivered);
      }
      var event := events[i];
      assert events[i..][1..] == events[i + 1..];
      i := i + 1;
      match event {
        case RecvFailed(e) =>
          if !RecvRetried(e) {
            return Response(Returned(e), delivered);
          }
        case Closed =>
          return Response(Returned(-1), delivered);
        case Datagram(nameLen, msgs) =>
          if nameLen != SOCKADDR_NL_LEN {
            return Response(Returned(-1), delivered);
          }
          var b := ProcessMessages(msgs, seqNo, handler, multiPart);
          match b {
            case Aborted(code, d) =>
              return Response(Returned(code), delivered + d);
            case Read(k, mp, d) =>
              PrependConcat(delivered, d, Receive(events[i..], seqNo, handler, mp));
              delivered := delivered + d;
              keepReading := k;
              multiPart := mp;
          }
      }
    }
    return Response(Returned(0), delivered);
  }

  // ---------------------------------------------------------------------
  // What the response loop guarantees

  /** Within one datagram the handler sees only messages of the response, never a kernel error. */
  lemma {:induction false} DatagramContents(msgs: seq<NlMsg>, seqNo: u32, handler: Handler, keep: bool, multi: bool)
    ensures var b := ProcessDatagram(msgs, seqNo, handler, keep, multi);
      forall m | m in b.delivered :: m in msgs && Relevant(m, seqNo) && !KernelError(m) && handler.Some?
    decreases |msgs|
  {
    if msgs != [] {
      var m := msgs[0];
      var single := m.flags & NLM_F_MULTI == 0;
      var k := if single then false else keep;
      var mu := if single then multi else true;
      assert forall x | x in msgs[1..] :: x in msgs;
      DatagramContents(msgs[1..], seqNo, handler, keep, multi);
      DatagramContents(msgs[1..], seqNo, handler, false, mu);
      DatagramContents(msgs[1..], seqNo, handler, k, mu);
    }
  }

  /**
   * Within one datagram the handler accepted every message it saw but
   * possibly the last; if it rejected the last, the walk ended with the
   * handler's result.
   */
  lemma {:induction false} DatagramAcceptance(msgs: seq<NlMsg>, seqNo: u32, handler: Handler, keep: bool, multi: bool)
    ensures var b := ProcessDatagram(msgs, seqNo, handler, keep, multi);
      && (forall i | 0 <= i < |b.delivered| - 1 :: Accepts(handler, b.delivered[i]))
      && (b.Read? ==> forall i | 0 <= i < |b.delivered| :: Accepts(handler, b.delivered[i]))
      && (b.delivered != [] && !Accepts(handler, b.delivered[|b.delivered| - 1]) ==>
            handler.Some? && b == Aborted(handler.value(b.delivered[|b.delivered| - 1]), b.delivered))
    decreases |msgs|
  {
    if msgs == [] {
      return;
    }
    var m := msgs[0];
    var single := m.flags & NLM_F_MULTI == 0;
    var k := if single then false else keep;
    var mu := if single then multi else true;
    if !Relevant(m, seqNo) {
      DatagramAcceptance(msgs[1..], seqNo, handler, keep, multi);
    } else if KernelError(m) {
    } else if mu && m.msgType == NLMSG_DONE {
      DatagramAcceptance(msgs[1..], seqNo, handler, false, mu);
    } else if handler.None? || handler.value(m) != 0 {
      DatagramAcceptance(msgs[1..], seqNo, handler, k, mu);
    } else {
      DatagramAcceptance(msgs[1..], seqNo, handler, k, mu);
      var r := ProcessDatagram(msgs[1..], seqNo, handler, k, mu);
      var d := [m] + r.delivered;
      assert ProcessDatagram(msgs, seqNo, handler, keep, multi) == DeliverAll([m], r);
      assert forall i | 1 <= i < |d| :: d[i] == r.delivered[i - 1];
    }
  }

  /**
   * A walk that ends early returns a non-zero code: the handler's rejection,
   * or the negated code of a kernel error carried in the datagram.
   */
  lemma {:induction false} DatagramAbortCause(msgs: seq<NlMsg>, seqNo: u32, handler: Handler, keep: bool, multi: bool)
    ensures var b := ProcessDatagram(msgs, seqNo, handler, keep, multi);
      b.Aborted? ==>
        && b.code != 0
        && ((b.delivered != [] && handler.Some? && b.code == handler.value(b.delivered[|b.delivered| - 1]))
            || exists m | m in msgs :: Relevant(m, seqNo) && KernelError(m) && b.code == -m.error)
    decreases |msgs|
  {
    if msgs != [] {
      var m := msgs[0];
      var single := m.flags & NLM_F_MULTI == 0;
      var k := if single then false else keep;
      var mu := if single then multi else true;
      assert m in msgs;
      assert forall x | x in msgs[1..] :: x in msgs;
      DatagramAbortCause(msgs[1..], seqNo, handler, keep, multi);
      DatagramAbortCause(msgs[1..], seqNo, handler, false, mu);
      DatagramAbortCause(msgs[1..], seqNo, handler, k, mu);
    }
  }

  /**
   * Over the whole exchange the handler sees only messages of the response
   * that are not kernel errors, taken from the datagrams read.
   */
  lemma {:induction false} ReceiveContents(events: seq<RecvEvent>, seqNo: u32, handler: Handler, multi: bool)
    ensures var r := Receive(events, seqNo, handler, multi);
      forall m | m in r.delivered :: m in Carried(events) && Relevant(m, seqNo) && !KernelError(m) && handler.Some?
    decreases |events|
  {
    if events == [] {
      return;
    }
    var rest := events[1..];
    assert Carried(events) == (if events[0].Datagram? then events[0].msgs else []) + Carried(rest);
    match events[0]
    case RecvFailed(e) =>
      ReceiveContents(rest, seqNo, handler, multi);
    case Closed =>
    case Datagram(nameLen, msgs) =>
      DatagramContents(msgs, seqNo, handler, true, multi);
      var b := ProcessDatagram(msgs, seqNo, handler, true, multi);
      if b.Read? {
        ReceiveContents(rest, seqNo, handler, b.multiPart);
      }
  }

  /**
   * Over the whole exchange the handler accepted every message it saw but
   * possibly the last; a rejected last message makes the handler's result the
   * value returned.
   */
  lemma {:induction false} ReceiveAcceptance(events: seq<RecvEvent>, seqNo: u32, handler: Handler, multi: bool)
    ensures AcceptedUntilLast(handler, Receive(events, seqNo, handler, multi))
    decreases |events|
  {
    if events == [] {
      return;
    }
    var rest := events[1..];
    match events[0]
    case RecvFailed(e) =>
      ReceiveAcceptance(rest, seqNo, handler, multi);
    case Closed =>
    case Datagram(nameLen, msgs) =>
      DatagramAcceptance(msgs, seqNo, handler, true, multi);
      var b := ProcessDatagram(msgs, seqNo, handler, true, multi);
      if nameLen == SOCKADDR_NL_LEN && b.Read? && b.keepReading {
        ReceiveAcceptance(rest, seqNo, handler, b.multiPart);
        AcceptedPrepend(handler, b.delivered, Receive(rest, seqNo, handler, b.multiPart));
      }
  }

  /** Once a message has cleared the reading flag, the rest of the datagram cannot set it again. */
  lemma {:induction false} KeepStaysFalse(msgs: seq<NlMsg>, seqNo: u32, handler: Handler, multi: bool)
    ensures var b := ProcessDatagram(msgs, seqNo, handler, false, multi); b.Read? ==> !b.keepReading
    decreases |msgs|
  {
    if msgs != [] {
      var m := msgs[0];
      var mu := if m.flags & NLM_F_MULTI == 0 then multi else true;
      KeepStaysFalse(msgs[1..], seqNo, handler, multi);
      KeepStaysFalse(msgs[1..], seqNo, handler, mu);
    }
  }

  /**
   * A message of the response without NLM_F_MULTI, or an NLMSG_DONE, ends the
   * reading after its datagram (unless the walk returns earlier).
   */
  lemma {:induction false} FinalMessageStops(msgs: seq<NlMsg>, seqNo: u32, handler: Handler, keep: bool, multi: bool,
                                             j: nat)
    requires j < |msgs| && Relevant(msgs[j], seqNo) && Final(msgs[j])
    ensures var b := ProcessDatagram(msgs, seqNo, handler, keep, multi); b.Read? ==> !b.keepReading
    decreases j
  {
    var m := msgs[0];
    var single := m.flags & NLM_F_MULTI == 0;
    var k := if single then false else keep;
    var mu := if single then multi else true;
    if j == 0 {
      KeepStaysFalse(msgs[1..], seqNo, handler, mu);
    } else {
      assert msgs[1..][j - 1] == msgs[j];
      FinalMessageStops(msgs[1..], seqNo, handler, keep, multi, j - 1);
      FinalMessageStops(msgs[1..], seqNo, handler, k, mu, j - 1);
      FinalMessageStops(msgs[1..], seqNo, handler, false, mu, j - 1);
    }
  }

  /**
   * A datagram carrying a final message of the response is the last one
   * read: whatever the environment would deliver afterwards is never looked
   * at, and the call returns.
   */
  lemma FinalDatagramEndsExchange(events: seq<RecvEvent>, seqNo: u32, handler: Handler, multi: bool, j: nat)
    requires events != [] && events[0].Datagram? && events[0].nameLen == SOCKADDR_NL_LEN
    requires j < |events[0].msgs| && Relevant(events[0].msgs[j], seqNo) && Final(events[0].msgs[j])
    ensures Receive(events, seqNo, handler, multi) == Receive(events[..1], seqNo, handler, multi)
    ensures Receive(events, seqNo, handler, multi).outcome.Returned?
  {
    FinalMessageStops(events[0].msgs, seqNo, handler, true, multi, j);
    assert events[..1][0] == events[0];
  }

  /** A datagram with nothing of the response in it passes through the walk untouched. */
  lemma {:induction false} IgnoredDatagram(msgs: seq<NlMsg>, seqNo: u32, handler: Handler, keep: bool, multi: bool)
    requires forall m | m in msgs :: !Relevant(m, seqNo)
    ensures ProcessDatagram(msgs, seqNo, handler, keep, multi) == Read(keep, multi, [])
    decreases |msgs|
  {
    if msgs != [] {
      assert msgs[0] in msgs;
      assert forall x | x in msgs[1..] :: x in msgs;
      IgnoredDatagram(msgs[1..], seqNo, handler, keep, multi);
    }
  }

  /** An event the response loop reads past: an interrupted read, or a datagram with nothing of the response. */
  predicate Ignorable(e: RecvEvent, seqNo: u32) {
    || e == RecvFailed(EINTR)
    || (e.Datagram? && e.nameLen == SOCKADDR_NL_LEN && forall m | m in e.msgs :: !Relevant(m, seqNo))
  }

  /**
   * Interrupted reads, NLMSG_NOOP and traffic for other requests never end the
   * exchange: the loop keeps waiting and the handler sees nothing.
   */
  lemma {:induction false} IgnoredTrafficWaits(events: seq<RecvEvent>, seqNo: u32, handler: Handler, multi: bool)
    requires forall k | 0 <= k < |events| :: Ignorable(events[k], seqNo)
    ensures Receive(events, seqNo, handler, multi) == Response(Waiting, [])
    decreases |events|
  {
    if events != [] {
      if events[0].Datagram? {
        IgnoredDatagram(events[0].msgs, seqNo, handler, true, multi);
      }
      IgnoredTrafficWaits(events[1..], seqNo, handler, multi);
    }
  }

  /**
   * The first message of the response being a kernel error ends the exchange
   * with the negated error code, before the handler sees anything.
   */
  lemma {:induction false} KernelErrorAborts(msgs: seq<NlMsg>, seqNo: u32, handler: Handler, keep: bool, multi: bool,
                                             j: nat)
    requires j < |msgs| && Relevant(msgs[j], seqNo) && KernelError(msgs[j])
    requires forall k | 0 <= k < j :: !Relevant(msgs[k], seqNo)
    ensures ProcessDatagram(msgs, seqNo, handler, keep, multi) == Aborted(-msgs[j].error, [])
    decreases j
  {
    if j > 0 {
      assert !Relevant(msgs[0], seqNo);
      assert msgs[1..][j - 1] == msgs[j];
      KernelErrorAborts(msgs[1..], seqNo, handler, keep, multi, j - 1);
    }
  }

  /**
   * An acknowledgement (NLMSG_ERROR with code 0) is not an error: it is handed
   * to the handler, and a single-part acknowledgement ends the exchange with
   * the handler's result.
   */
  lemma AckReachesHandler(ack: NlMsg, seqNo: u32, handler: Handler, later: seq<RecvEvent>)
    requires ack.msgType == NLMSG_ERROR && ack.error == 0 && ack.seqNo == seqNo && ack.flags & NLM_F_MULTI == 0
    ensures Receive([Datagram(SOCKADDR_NL_LEN, [ack])] + later, seqNo, handler, false)
         == if handler.Some? then Response(Returned(handler.value(ack)), [ack]) else Response(Returned(0), [])
  {
    var events := [Datagram(SOCKADDR_NL_LEN, [ack])] + later;
    assert events[0] == Datagram(SOCKADDR_NL_LEN, [ack]);
    assert [ack][1..] == [];
    assert ProcessDatagram([ack][1..], seqNo, handler, false, false) == Read(false, false, []);
    assert Relevant(ack, seqNo) && !KernelError(ack);
  }

  /**
   * The messages of `msgs` meant for the handler, in order, when the response
   * so far is multi-part exactly when `multi` holds: every relevant message up
   * to the first kernel error, except NLMSG_DONE of a multi-part response.
   */
  function Deliverable(msgs: seq<NlMsg>, seqNo: u32, multi: bool): seq<NlMsg>
    decreases |msgs|
  {
    if msgs == [] then []
    else
      var m := msgs[0];
      if !Relevant(m, seqNo) then Deliverable(msgs[1..], seqNo, multi)
      else if KernelError(m) then []
      else
        var multi' := multi || m.flags & NLM_F_MULTI != 0;
        (if multi' && m.msgType == NLMSG_DONE then [] else [m]) + Deliverable(msgs[1..], seqNo, multi')
  }

  /** Whether the datagram holds a relevant message that ends the reading: a kernel error or a final message. */
  predicate EndsReading(msgs: seq<NlMsg>, seqNo: u32)
    decreases |msgs|
  {
    msgs != [] && ((Relevant(msgs[0], seqNo) && (KernelError(msgs[0]) || Final(msgs[0]))) || EndsReading(msgs[1..], seqNo))
  }

  /**
   * Every message meant for the handler reaches it, in order.  A walk over a
   * datagram that ends the exchange hands the handler the deliverable
   * messages of the datagram and of the later messages `tail`, or a prefix of
   * them ending with a rejected one; a walk that reads to the end of the
   * datagram hands it the datagram's deliverable messages and leaves the
   * multi-part state from which `tail` is deliverable.
   */
  lemma {:induction false} DatagramDelivery(msgs: seq<NlMsg>, seqNo: u32, handler: Handler, keep: bool, multi: bool,
                                             tail: seq<NlMsg>)
    requires handler.Some?
    ensures var b := ProcessDatagram(msgs, seqNo, handler, keep, multi);
      var all := Deliverable(msgs + tail, seqNo, multi);
      && (b.Aborted? ==> HandedOver(handler, b.delivered, all))
      && (b.Read? ==> all == b.delivered + Deliverable(tail, seqNo, b.multiPart))
    decreases |msgs|
  {
    if msgs == [] {
      assert msgs + tail == tail;
      return;
    }
    var m := msgs[0];
    assert (msgs + tail)[0] == m && (msgs + tail)[1..] == msgs[1..] + tail;
    if !Relevant(m, seqNo) {
      DatagramDelivery(msgs[1..], seqNo, handler, keep, multi, tail);
    } else if !KernelError(m) {
      var single := m.flags & NLM_F_MULTI == 0;
      var k := if single then false else keep;
      var mp := if single then multi else true;
      assert mp == (multi || m.flags & NLM_F_MULTI != 0);
      var rest := Deliverable(msgs[1..] + tail, seqNo, mp);
      if mp && m.msgType == NLMSG_DONE {
        DatagramDelivery(msgs[1..], seqNo, handler, false, mp, tail);
        assert Deliverable(msgs + tail, seqNo, multi) == rest;
      } else {
        assert Deliverable(msgs + tail, seqNo, multi) == [m] + rest;
        if handler.value(m) == 0 {
          var b := ProcessDatagram(msgs[1..], seqNo, handler, k, mp);
          DatagramDelivery(msgs[1..], seqNo, handler, k, mp, tail);
          if b.Aborted? {
            HandedOverAppend(handler, [m], b.delivered, rest);
          }
          assert ProcessDatagram(msgs, seqNo, handler, keep, multi) == DeliverAll([m], b);
        }
      }
    }
  }

  /**
   * A walk that reads to the end of a datagram met no relevant kernel error
   * and keeps reading exactly when no final message came.
   */
  lemma {:induction false} DatagramKeepsReading(msgs: seq<NlMsg>, seqNo: u32, handler: Handler, keep: bool, multi: bool)
    ensures var b := ProcessDatagram(msgs, seqNo, handler, keep, multi);
      b.Read? ==> b.keepReading == (keep && !EndsReading(msgs, seqNo))
    decreases |msgs|
  {
    if msgs != [] {
      var m := msgs[0];
      var single := m.flags & NLM_F_MULTI == 0;
      var k := if single then false else keep;
      var mp := if single then multi else true;
      DatagramKeepsReading(msgs[1..], seqNo, handler, keep, multi);
      DatagramKeepsReading(msgs[1..], seqNo, handler, k, mp);
      DatagramKeepsReading(msgs[1..], seqNo, handler, false, mp);
    }
  }

  /**
   * The messages of the datagrams the exchange reads: one datagram after the
   * other until a failed read that is not retried, a closed socket, a sender
   * address of the wrong size, or a datagram that ends the reading.
   */
  function Walked(events: seq<RecvEvent>, seqNo: u32): seq<NlMsg>
    decreases |events|
  {
    if events == [] then []
    else
      match events[0]
      case RecvFailed(e) => if RecvRetried(e) then Walked(events[1..], seqNo) else []
      case Closed => []
      case Datagram(nameLen, msgs) =>
        if nameLen != SOCKADDR_NL_LEN then []
        else msgs + (if EndsReading(msgs, seqNo) then [] else Walked(events[1..], seqNo))
  }

  /**
   * Over the whole exchange the handler is handed the deliverable messages of
   * the datagrams read, in order: all of them, unless it rejected the last
   * one it saw, in which case those it saw are a prefix of them.
   */
  lemma {:induction false} ReceiveDelivery(events: seq<RecvEvent>, seqNo: u32, handler: Handler, multi: bool)
    requires handler.Some?
    ensures HandedOver(handler, Receive(events, seqNo, handler, multi).delivered,
                       Deliverable(Walked(events, seqNo), seqNo, multi))
    decreases |events|
  {
    if events == [] {
      return;
    }
    match events[0]
    case RecvFailed(e) =>
      ReceiveDelivery(events[1..], seqNo, handler, multi);
    case Closed =>
    case Datagram(nameLen, msgs) =>
      var b := ProcessDatagram(msgs, seqNo, handler, true, multi);
      if nameLen == SOCKADDR_NL_LEN && b.Read? && !EndsReading(msgs, seqNo) {
        ReceiveDelivery(events[1..], seqNo, handler, b.multiPart);
      }
      DatagramStep(events, seqNo, handler, multi);
  }

  /** The step of ReceiveDelivery for a datagram read first. */
  lemma DatagramStep(events: seq<RecvEvent>, seqNo: u32, handler: Handler, multi: bool)
    requires events != [] && events[0].Datagram? && handler.Some?
    requires var b := ProcessDatagram(events[0].msgs, seqNo, handler, true, multi);
      events[0].nameLen == SOCKADDR_NL_LEN && b.Read? && !EndsReading(events[0].msgs, seqNo) ==>
        HandedOver(handler, Receive(events[1..], seqNo, handler, b.multiPart).delivered,
                   Deliverable(Walked(events[1..], seqNo), seqNo, b.multiPart))
    ensures HandedOver(handler, Receive(events, seqNo, handler, multi).delivered,
                       Deliverable(Walked(events, seqNo), seqNo, multi))
  {
    var msgs := events[0].msgs;
    if events[0].nameLen == SOCKADDR_NL_LEN {
      var tail := if EndsReading(msgs, seqNo) then [] else Walked(events[1..], seqNo);
      assert Walked(events, seqNo) == msgs + tail;
      DatagramDelivery(msgs, seqNo, handler, true, multi, tail);
      DatagramKeepsReading(msgs, seqNo, handler, true, multi);
      var b := ProcessDatagram(msgs, seqNo, handler, true, multi);
      if b.Read? && b.keepReading {
        var r := Receive(events[1..], seqNo, handler, b.multiPart);
        assert Receive(events, seqNo, handler, multi) == Prepend(b.delivered, r);
        HandedOverAppend(handler, b.delivered, r.delivered, Deliverable(tail, seqNo, b.multiPart));
      } else if b.Read? {
        assert tail == [] && Deliverable(tail, seqNo, b.multiPart) == [];
        assert b.delivered + [] == b.delivered;
      }
    }
  }
}
