// The response side of nlSendMessage in the older code base (src/netlink.c):
// datagrams are read until one of them holds a message with the request's
// sequence number, and the walk over a datagram stops at NLMSG_DONE.

module NetlinkOldReceive {
  import opened Base
  import opened NlWire

  /** What sending leads to: an error, no wait, or the response loop. */
  function SendOutcome(waitResponse: bool, handler: Handler, seqNo: u32,
                       attempts: seq<SendAttempt>, events: seq<RecvEvent>): (r: Response)
    ensures Transmit(attempts).TransmitError? ==> r == Response(Returned(Transmit(attempts).errno), [])
    ensures Transmit(attempts).TransmitPending? ==> r == Response(Waiting, [])
    ensures Transmit(attempts).Transmitted? && !waitResponse ==> r == Response(Returned(0), [])
  {
    match Transmit(attempts)
    case TransmitError(e) => Response(Returned(e), [])
    case TransmitPending => Response(Waiting, [])
    case Transmitted =>
      if waitResponse then Receive(events, seqNo, handler) else Response(Returned(0), [])
  }

  /**
   * The result of walking the messages of one datagram: the loop returned
   * `code`, or it left the datagram with the `foundResponse` flag `found`.
   * Either way `delivered` lists the messages the handler saw.
   */
  datatype Batch =
    | Aborted(code: int, delivered: seq<NlMsg>)
    | Finished(found: bool, delivered: seq<NlMsg>)

  /** Messages handed to the handler earlier come first. */
  function DeliverAll(d: seq<NlMsg>, b: Batch): Batch {
    match b
    case Aborted(c, rest) => Aborted(c, d + rest)
    case Finished(f, rest) => Finished(f, d + rest)
  }

  /**
   * The inner loop of nlSendMessage over one datagram.  NLMSG_DONE ends the
   * walk whatever its sequence number; other messages with another sequence
   * number are skipped.  Every other message sets the found flag: a kernel
   * error ends the exchange with its negation, and anything else, NLMSG_NOOP
   * and acknowledgements included, goes to the handler, whose non-zero result
   * ends the exchange.
   */
  function ProcessDatagram(msgs: seq<NlMsg>, seqNo: u32, handler: Handler, found: bool): Batch
    decreases |msgs|
  {
    if msgs == [] then Finished(found, [])
    else
      var m := msgs[0];
      if m.msgType == NLMSG_DONE then
        Finished(found, [])
      else if m.seqNo != seqNo then
        ProcessDatagram(msgs[1..], seqNo, handler, found)
      else if KernelError(m) then
        Aborted(-m.error, [])
      else if handler.None? then
        ProcessDatagram(msgs[1..], seqNo, handler, true)
      else if handler.value(m) != 0 then
        Aborted(handler.value(m), [m])
      else
        DeliverAll([m], ProcessDatagram(msgs[1..], seqNo, handler, true))
  }

  /**
   * The outer loop of nlSendMessage: reads datagrams until one of them set
   * the found flag.  A failed read is retried only on EINTR; a closed socket
   * or a sender address of the wrong size ends the exchange with -1.
   */
  function Receive(events: seq<RecvEvent>, seqNo: u32, handler: Handler): Response
    decreases |events|
  {
    if events == [] then Response(Waiting, [])
    else
      match events[0]
      case RecvFailed(e) =>
        if RecvRetried(e) then Receive(events[1..], seqNo, handler) else Response(Returned(e), [])
      case Closed => Response(Returned(-1), [])
      case Datagram(nameLen, msgs) =>
        if nameLen != SOCKADDR_NL_LEN then Response(Returned(-1), [])
        else
          match ProcessDatagram(msgs, seqNo, handler, false)
          case Aborted(code, d) => Response(Returned(code), d)
          case Finished(found, d) =>
            if found then Response(Returned(0), d) else Prepend(d, Receive(events[1..], seqNo, handler))
  }

  lemma DeliverAllConcat(a: seq<NlMsg>, b: seq<NlMsg>, x: Batch)
    ensures DeliverAll(a, DeliverAll(b, x)) == DeliverAll(a + b, x)
  {
    assert a + (b + x.delivered) == a + b + x.delivered;
  }

  /** The `for` loop over the messages of one datagram, as nlSendMessage runs it. */
  method ProcessMessages(msgs: seq<NlMsg>, seqNo: u32, handler: Handler) returns (b: Batch)
    ensures b == ProcessDatagram(msgs, seqNo, handler, false)
  {
    var foundResponse := false;
    var delivered: seq<NlMsg> := [];
    var j := 0;
    while j < |msgs|
      invariant 0 <= j <= |msgs|
      invariant ProcessDatagram(msgs, seqNo, handler, false)
             == DeliverAll(delivered, ProcessDatagram(msgs[j..], seqNo, handler, foundResponse))
    {
      var m := msgs[j];
      assert msgs[j..][1..] == msgs[j + 1..];
      if m.msgType == NLMSG_DONE {
        break;
      }
      j := j + 1;
      if m.seqNo != seqNo {
        continue;
      }
      foundResponse := true;
      if m.msgType == NLMSG_ERROR && m.error != 0 {
        return Aborted(-m.error, delivered);
      }
      if handler.Some? {
        var userError := handler.value(m);
        DeliverAllConcat(delivered, [m], ProcessDatagram(msgs[j..], seqNo, handler, true));
        delivered := delivered + [m];
        if userError != 0 {
          return Aborted(userError, delivered);
        }
      }
    }
    return Finished(foundResponse, delivered);
  }

  /** The response loop of nlSendMessage, reading `events` in order. */
  method ReceiveResponses(seqNo: u32, handler: Handler, events: seq<RecvEvent>) returns (resp: Response)
    ensures resp == Receive(events, seqNo, handler)
  {
    var delivered: seq<NlMsg> := [];
    var foundResponse := false;
    var i := 0;
    while !foundResponse
      invariant 0 <= i <= |events|
      invariant !foundResponse ==>
        Receive(events, seqNo, handler) == Prepend(delivered, Receive(events[i..], seqNo, handler))
      invariant foundResponse ==> Receive(events, seqNo, handler) == Response(Returned(0), delivered)
      decreases |events| - i, !foundResponse
    {
      if i == |events| {
        return Response(Waiting, delivered);
      }
      var event := events[i];
      assert events[i..][1..] == events[i + 1..];
      i := i + 1;
      match event {
        case RecvFailed(e) =>
          if !RecvRetried(e) {
            return Response(Returned(e), delivered);
          }
        case Closed =>
          return Response(Returned(-1), delivered);
        case Datagram(nameLen, msgs) =>
          if nameLen != SOCKADDR_NL_LEN {
            return Response(Returned(-1), delivered);
          }
          var b := ProcessMessages(msgs, seqNo, handler);
          match b {
            case Aborted(code, d) =>
              return Response(Returned(code), delivered + d);
            case Finished(f, d) =>
              PrependConcat(delivered, d, Receive(events[i..], seqNo, handler));
              delivered := delivered + d;
              foundResponse := f;
          }
      }
    }
    return Response(Returned(0), delivered);
  }

  // ---------------------------------------------------------------------
  // What the response loop guarantees

  /** The walk over a datagram ends at its first NLMSG_DONE, whatever that message's sequence number. */
  lemma {:induction false} StopsAtDone(msgs: seq<NlMsg>, seqNo: u32, handler: Handler, found: bool, j: nat)
    requires j < |msgs| && msgs[j].msgType == NLMSG_DONE
    ensures ProcessDatagram(msgs, seqNo, handler, found) == ProcessDatagram(msgs[..j], seqNo, handler, found)
    decreases j
  {
    if j > 0 {
      assert msgs[1..][j - 1] == msgs[j];
      assert msgs[..j][1..] == msgs[1..][..j - 1];
      StopsAtDone(msgs[1..], seqNo, handler, found, j - 1);
      StopsAtDone(msgs[1..], seqNo, handler, true, j - 1);
    }
  }

  /**
   * Within one datagram the handler sees only messages with the request's
   * sequence number that are neither NLMSG_DONE nor a kernel error.
   */
  lemma {:induction false} DatagramContents(msgs: seq<NlMsg>, seqNo: u32, handler: Handler, found: bool)
    ensures var b := ProcessDatagram(msgs, seqNo, handler, found);
      forall m | m in b.delivered ::
        m in msgs && m.seqNo == seqNo && m.msgType != NLMSG_DONE && !KernelError(m) && handler.Some?
    decreases |msgs|
  {
    if msgs != [] {
      assert forall x | x in msgs[1..] :: x in msgs;
      DatagramContents(msgs[1..], seqNo, handler, found);
      DatagramContents(msgs[1..], seqNo, handler, true);
    }
  }

  /**
   * A message with the request's sequence number that comes before any
   * NLMSG_DONE sets the found flag: the walk either returns or leaves the
   * datagram with the flag set.
   */
  lemma {:induction false} MatchSetsFound(msgs: seq<NlMsg>, seqNo: u32, handler: Handler, found: bool, j: nat)
    requires j < |msgs| && msgs[j].seqNo == seqNo && msgs[j].msgType != NLMSG_DONE
    requires forall k | 0 <= k < j :: msgs[k].msgType != NLMSG_DONE
    ensures var b := ProcessDatagram(msgs, seqNo, handler, found); b.Finished? ==> b.found
    decreases j
  {
    if j > 0 {
      assert msgs[0].msgType != NLMSG_DONE;
      assert msgs[1..][j - 1] == msgs[j];
      assert forall k | 0 <= k < j - 1 :: msgs[1..][k] == msgs[k + 1];
      MatchSetsFound(msgs[1..], seqNo, handler, found, j - 1);
      MatchSetsFound(msgs[1..], seqNo, handler, true, j - 1);
    } else {
      FoundStays(msgs[1..], seqNo, handler);
    }
  }

  /** Once set, the found flag stays set for the rest of the datagram. */
  lemma {:induction false} FoundStays(msgs: seq<NlMsg>, seqNo: u32, handler: Handler)
    ensures var b := ProcessDatagram(msgs, seqNo, handler, true); b.Finished? ==> b.found
    decreases |msgs|
  {
    if msgs != [] {
      FoundStays(msgs[1..], seqNo, handler);
    }
  }

  /**
   * The wait ends with the first datagram that holds a message with the
   * request's sequence number before any NLMSG_DONE, even one with NLM_F_MULTI
   * set: nothing the environment delivers afterwards is looked at.
   */
  lemma MatchEndsWait(events: seq<RecvEvent>, seqNo: u32, handler: Handler, j: nat)
    requires events != [] && events[0].Datagram? && events[0].nameLen == SOCKADDR_NL_LEN
    requires var msgs := events[0].msgs;
      && j < |msgs| && msgs[j].seqNo == seqNo && msgs[j].msgType != NLMSG_DONE
      && forall k | 0 <= k < j :: msgs[k].msgType != NLMSG_DONE
    ensures Receive(events, seqNo, handler) == Receive(events[..1], seqNo, handler)
    ensures Receive(events, seqNo, handler).outcome.Returned?
  {
    MatchSetsFound(events[0].msgs, seqNo, handler, false, j);
    assert events[..1][0] == events[0];
  }

  /**
   * A message with the request's sequence number at the head of the
   * datagram, NLMSG_NOOP and acknowledgements included, is handed to the
   * handler; a kernel error instead ends the exchange with its negation.
   */
  lemma FirstMatchHandled(m: NlMsg, rest: seq<NlMsg>, seqNo: u32, handler: Handler)
    requires m.seqNo == seqNo && m.msgType != NLMSG_DONE
    ensures var b := ProcessDatagram([m] + rest, seqNo, handler, false);
      && (KernelError(m) ==> b == Aborted(-m.error, []))
      && (!KernelError(m) && handler.Some? ==> b.delivered != [] && b.delivered[0] == m)
      && (!KernelError(m) && handler.Some? && handler.value(m) != 0 ==> b == Aborted(handler.value(m), [m]))
  {
    assert ([m] + rest)[0] == m;
    assert ([m] + rest)[1..] == rest;
  }

  /**
   * The handler accepted every message it saw but possibly the last; if it
   * rejected the last, the walk ended with the handler's result.
   */
  lemma {:induction false} DatagramAcceptance(msgs: seq<NlMsg>, seqNo: u32, handler: Handler, found: bool)
    ensures var b := ProcessDatagram(msgs, seqNo, handler, found);
      && (forall i | 0 <= i < |b.delivered| - 1 :: Accepts(handler, b.delivered[i]))
      && (b.Finished? ==> forall i | 0 <= i < |b.delivered| :: Accepts(handler, b.delivered[i]))
      && (b.delivered != [] && !Accepts(handler, b.delivered[|b.delivered| - 1]) ==>
            handler.Some? && b == Aborted(handler.value(b.delivered[|b.delivered| - 1]), b.delivered))
    decreases |msgs|
  {
    if msgs == [] {
      return;
    }
    var m := msgs[0];
    if m.msgType == NLMSG_DONE || (KernelError(m) && m.seqNo == seqNo) {
    } else if m.seqNo != seqNo {
      DatagramAcceptance(msgs[1..], seqNo, handler, found);
    } else if handler.None? || handler.value(m) != 0 {
      DatagramAcceptance(msgs[1..], seqNo, handler, true);
    } else {
      DatagramAcceptance(msgs[1..], seqNo, handler, true);
      var r := ProcessDatagram(msgs[1..], seqNo, handler, true);
      var d := [m] + r.delivered;
      assert ProcessDatagram(msgs, seqNo, handler, found) == DeliverAll([m], r);
      assert forall i | 1 <= i < |d| :: d[i] == r.delivered[i - 1];
    }
  }

  /**
   * A walk that ends early returns a non-zero code: the handler's rejection
   * of the last message it saw, or the negated code of a kernel error with
   * the request's sequence number carried in the datagram.
   */
  lemma {:induction false} DatagramAbortCause(msgs: seq<NlMsg>, seqNo: u32, handler: Handler, found: bool)
    ensures var b := ProcessDatagram(msgs, seqNo, handler, found);
      b.Aborted? ==>
        && b.code != 0
        && ((b.delivered != [] && handler.Some? && b.code == handler.value(b.delivered[|b.delivered| - 1]))
            || exists m | m in msgs :: m.seqNo == seqNo && KernelError(m) && b.code == -m.error)
    decreases |msgs|
  {
    if msgs != [] {
      assert msgs[0] in msgs;
      assert forall x | x in msgs[1..] :: x in msgs;
      DatagramAbortCause(msgs[1..], seqNo, handler, found);
      DatagramAbortCause(msgs[1..], seqNo, handler, true);
    }
  }

  /**
   * Over the whole exchange the handler sees only messages with the
   * request's sequence number, never NLMSG_DONE or a kernel error, taken from
   * the datagrams read.
   */
  lemma {:induction false} ReceiveContents(events: seq<RecvEvent>, seqNo: u32, handler: Handler)
    ensures var r := Receive(events, seqNo, handler);
      forall m | m in r.delivered ::
        m in Carried(events) && m.seqNo == seqNo && m.msgType != NLMSG_DONE && !KernelError(m) && handler.Some?
    decreases |events|
  {
    if events == [] {
      return;
    }
    var rest := events[1..];
    assert Carried(events) == (if events[0].Datagram? then events[0].msgs else []) + Carried(rest);
    match events[0]
    case RecvFailed(e) =>
      ReceiveContents(rest, seqNo, handler);
    case Closed =>
    case Datagram(nameLen, msgs) =>
      DatagramContents(msgs, seqNo, handler, false);
      ReceiveContents(rest, seqNo, handler);
  }

  /** A datagram with no message of the request before its first NLMSG_DONE leaves the walk as it found it. */
  lemma {:induction false} IgnoredDatagram(msgs: seq<NlMsg>, seqNo: u32, handler: Handler, found: bool)
    requires forall m | m in msgs :: m.seqNo != seqNo || m.msgType == NLMSG_DONE
    ensures ProcessDatagram(msgs, seqNo, handler, found) == Finished(found, [])
    decreases |msgs|
  {
    if msgs != [] {
      assert msgs[0] in msgs;
      assert forall x | x in msgs[1..] :: x in msgs;
      IgnoredDatagram(msgs[1..], seqNo, handler, found);
    }
  }

  /** An event the response loop reads past: an interrupted read, or a datagram with nothing of the request. */
  predicate Ignorable(e: RecvEvent, seqNo: u32) {
    || e == RecvFailed(EINTR)
    || (e.Datagram? && e.nameLen == SOCKADDR_NL_LEN
        && forall m | m in e.msgs :: m.seqNo != seqNo || m.msgType == NLMSG_DONE)
  }

  /** Interrupted reads and traffic for other requests never end the exchange, and the handler sees nothing. */
  lemma {:induction false} IgnoredTrafficWaits(events: seq<RecvEvent>, seqNo: u32, handler: Handler)
    requires forall k | 0 <= k < |events| :: Ignorable(events[k], seqNo)
    ensures Receive(events, seqNo, handler) == Response(Waiting, [])
    decreases |events|
  {
    if events != [] {
      if events[0].Datagram? {
        IgnoredDatagram(events[0].msgs, seqNo, handler, false);
      }
      IgnoredTrafficWaits(events[1..], seqNo, handler);
    }
  }

  /**
   * The messages of `msgs` meant for the handler, in order: those with the
   * request's sequence number, up to the first NLMSG_DONE or kernel error.
   */
  function Deliverable(msgs: seq<NlMsg>, seqNo: u32): seq<NlMsg>
    decreases |msgs|
  {
    if msgs == [] || msgs[0].msgType == NLMSG_DONE then []
    else if msgs[0].seqNo != seqNo then Deliverable(msgs[1..], seqNo)
    else if KernelError(msgs[0]) then []
    else [msgs[0]] + Deliverable(msgs[1..], seqNo)
  }

  /** Whether a message with the request's sequence number comes before the first NLMSG_DONE. */
  predicate Answered(msgs: seq<NlMsg>, seqNo: u32)
    decreases |msgs|
  {
    msgs != [] && msgs[0].msgType != NLMSG_DONE && (msgs[0].seqNo == seqNo || Answered(msgs[1..], seqNo))
  }

  /**
   * Every message meant for the handler reaches it, in order: the walk over a
   * datagram hands the handler its deliverable messages, or a prefix of them
   * ending with a rejected one when it ends the exchange that way; a walk
   * that leaves the datagram has set the found flag exactly when the datagram
   * answered the request, and one that ends the exchange met an answer.
   */
  lemma {:induction false} DatagramDelivery(msgs: seq<NlMsg>, seqNo: u32, handler: Handler, found: bool)
    requires handler.Some?
    ensures var b := ProcessDatagram(msgs, seqNo, handler, found);
      && HandedOver(handler, b.delivered, Deliverable(msgs, seqNo))
      && (b.Finished? ==> b.delivered == Deliverable(msgs, seqNo))
      && (b.Finished? ==> b.found == (found || Answered(msgs, seqNo)))
      && (b.Aborted? ==> Answered(msgs, seqNo))
    decreases |msgs|
  {
    if msgs == [] || msgs[0].msgType == NLMSG_DONE {
      return;
    }
    var m := msgs[0];
    if m.seqNo != seqNo {
      DatagramDelivery(msgs[1..], seqNo, handler, found);
    } else if !KernelError(m) && handler.value(m) == 0 {
      var b := ProcessDatagram(msgs[1..], seqNo, handler, true);
      DatagramDelivery(msgs[1..], seqNo, handler, true);
      HandedOverAppend(handler, [m], b.delivered, Deliverable(msgs[1..], seqNo));
      assert ProcessDatagram(msgs, seqNo, handler, found) == DeliverAll([m], b);
    }
  }

  /**
   * The messages meant for the handler over the exchange: the deliverable
   * messages of each datagram read, until a failed read that is not retried,
   * a closed socket, a sender address of the wrong size, or a datagram that
   * answered the request.
   */
  function DeliverableRead(events: seq<RecvEvent>, seqNo: u32): seq<NlMsg>
    decreases |events|
  {
    if events == [] then []
    else
      match events[0]
      case RecvFailed(e) => if RecvRetried(e) then DeliverableRead(events[1..], seqNo) else []
      case Closed => []
      case Datagram(nameLen, msgs) =>
        if nameLen != SOCKADDR_NL_LEN then []
        else Deliverable(msgs, seqNo) + (if Answered(msgs, seqNo) then [] else DeliverableRead(events[1..], seqNo))
  }

  /**
   * Over the whole exchange the handler is handed the deliverable messages of
   * the datagrams read, in order: all of them, unless it rejected the last
   * one it saw, in which case those it saw are a prefix of them.
   */
  lemma {:induction false} ReceiveDelivery(events: seq<RecvEvent>, seqNo: u32, handler: Handler)
    requires handler.Some?
    ensures HandedOver(handler, Receive(events, seqNo, handler).delivered, DeliverableRead(events, seqNo))
    decreases |events|
  {
    if events == [] {
      return;
    }
    match events[0]
    case RecvFailed(e) =>
      ReceiveDelivery(events[1..], seqNo, handler);
    case Closed =>
    case Datagram(nameLen, msgs) =>
      if nameLen == SOCKADDR_NL_LEN {
        DatagramDelivery(msgs, seqNo, handler, false);
        var b := ProcessDatagram(msgs, seqNo, handler, false);
        var tail := if Answered(msgs, seqNo) then [] else DeliverableRead(events[1..], seqNo);
        assert DeliverableRead(events, seqNo) == Deliverable(msgs, seqNo) + tail;
        if b.Finished? && !b.found {
          ReceiveDelivery(events[1..], seqNo, handler);
          HandedOverAppend(handler, b.delivered, Receive(events[1..], seqNo, handler).delivered, tail);
        } else if b.Finished? {
          assert b.delivered + [] == b.delivered;
        } else {
          HandedOverPrefix(handler, b.delivered, Deliverable(msgs, seqNo), tail);
        }
      }
  }
}
