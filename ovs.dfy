/**
 * The rule builders of the newer switch module (src/netmirage-core/ovs.c):
 * ovsAddIpFlow and ovsAddArpResponse assemble their rule in the context's
 * action buffer and hand it to `ovs-ofctl add-flow`.  Entering the context's
 * namespace (`switchContext`) and running the command are outside the model:
 * their results are the parameters `switchErr` and `commandErr`, and `flow`
 * is the rule the command receives (None when it is not run).
 */
module Ovs {
  import opened Base
  import opened CText
  import opened FlexBuffer
  import opened OvsText

  /** The `%02x` loop: the octets rendered into a fresh buffer of 2n + 1 characters, NUL-terminated. */
  method HexOctets(octets: seq<byte>) returns (text: array<char>)
    ensures fresh(text) && text.Length == 2 * |octets| + 1
    ensures text[..2 * |octets|] == HexOf(octets) && text[2 * |octets|] == '\0'
  {
    text := new char[2 * |octets| + 1];
    var i := 0;
    while i < |octets|
      invariant 0 <= i <= |octets|
      invariant forall j | 0 <= j < 2 * i :: text[j] == HexChar(octets, j)
    {
      var digits := Hex2(octets[i]);
      HexCharPair(octets, i);
      text[2 * i] := digits[0];
      text[2 * i + 1] := digits[1];
      text[2 * i + 2] := '\0';
      i := i + 1;
    }
    text[2 * |octets|] := '\0';
  }

  lemma HexCharPair(octets: seq<byte>, i: nat)
    requires i < |octets|
    ensures HexChar(octets, 2 * i) == Hex2(octets[i])[0]
    ensures HexChar(octets, 2 * i + 1) == Hex2(octets[i])[1]
  {
    assert (2 * i) / 2 == i && (2 * i) % 2 == 0;
    assert (2 * i + 1) / 2 == i && (2 * i + 1) % 2 == 1;
  }

  /** The switch context, as far as the rule builders use it: the action buffer. */
  class Context {
    const actionBuffer: Buffer<char>

    ghost predicate Valid()
      reads this, actionBuffer
    {
      actionBuffer.Valid() && actionBuffer.eltSize == 1
    }

    /** The action buffer as ovsStart leaves it: initialised and empty. */
    constructor ()
      ensures Valid() && fresh(actionBuffer) && actionBuffer.cap == 0
    {
      actionBuffer := new Buffer<char>(1);
    }

    /**
     * ovsAddIpFlow: the buffer ends up holding exactly the IP rule followed by
     * one NUL, and that rule is what `ovs-ofctl` receives.
     */
    method AddIpFlow(inPort: u32, srcNet: Option<string>, dstNet: Option<string>,
                     newSrcMac: Option<seq<byte>>, newDstMac: Option<seq<byte>>, outPort: u32, priority: u32,
                     switchErr: int, commandErr: int) returns (err: int, flow: Option<string>)
      requires Valid()
      requires SubnetText(srcNet) && SubnetText(dstNet) && MacGiven(newSrcMac) && MacGiven(newDstMac)
      modifies actionBuffer, actionBuffer.data
      ensures Valid()
      ensures switchErr != 0 ==> err == switchErr && flow.None?
      ensures switchErr != 0 ==> unchanged(actionBuffer) && unchanged(actionBuffer.data)
      ensures switchErr == 0 ==> err == commandErr
      ensures switchErr == 0 ==> flow == Some(IpFlowText(priority, inPort, srcNet, dstNet, newSrcMac, newDstMac, outPort))
      ensures flow.Some? ==> |flow.value| < actionBuffer.cap
      ensures flow.Some? ==> actionBuffer.data[..|flow.value|] == flow.value && actionBuffer.data[|flow.value|] == '\0'
    {
      if switchErr != 0 {
        return switchErr, None;
      }
      var len := BuildIpFlow(actionBuffer, priority, inPort, srcNet, dstNet, newSrcMac, newDstMac, outPort);
      flow := Some(actionBuffer.data[..len]);
      err := commandErr;
    }
  

    /**
     * ovsAddArpResponse: the buffer ends up holding exactly the ARP responder
     * rule for `ip` and `mac` followed by one NUL.  `ip` is the stored
     * (network-order) address as the C reads it, shifted with no ntohl, and
     * `ipText` is what ip4AddrToString writes for it.
     */
    method AddArpResponse(ip: u32, ipText: string, mac: seq<byte>, priority: u32, switchErr: int, commandErr: int)
      returns (err: int, flow: Option<string>)
      requires Valid()
      requires |ipText| < IP4_ADDR_BUFLEN && |mac| == MAC_ADDR_BYTES
      modifies actionBuffer, actionBuffer.data
      ensures Valid()
      ensures switchErr != 0 ==> err == switchErr && flow.None?
      ensures switchErr != 0 ==> unchanged(actionBuffer) && unchanged(actionBuffer.data)
      ensures switchErr == 0 ==> err == commandErr
      ensures switchErr == 0 ==> flow == Some(ArpResponseText(priority, ipText, ip, mac))
      ensures flow.Some? ==> |flow.value| < actionBuffer.cap
      ensures flow.Some? ==> actionBuffer.data[..|flow.value|] == flow.value && actionBuffer.data[|flow.value|] == '\0'
    {
      if switchErr != 0 {
        return switchErr, None;
      }
      var macText := MacText(mac);
      var ipOctets := HexOctets(IpBytes(ip));
      var macOctets := HexOctets(mac);
      var len := BuildArpRule(actionBuffer, priority, ipText, macText, macOctets[..2 * MAC_ADDR_BYTES], ipOctets[..8]);
      flow := Some(actionBuffer.data[..len]);
      err := commandErr;
    }
  }
}
