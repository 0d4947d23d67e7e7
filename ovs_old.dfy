/**
 * The switch module of the first generation (src/ovs.c): the context numbers
 * the ports it adds, ovsArpOnly replaces every rule by ARP switching, and
 * ovsAddIpFlow builds the same IP rule as the newer module.  Entering the
 * namespace and running `ovs-vsctl`/`ovs-ofctl` are outside the model: their
 * results are parameters, and `flow` is the rule the command receives.
 */
module OvsOld {
  import opened Base
  import opened CText
  import opened FlexBuffer
  import opened OvsText

  /** The port ids a context hands out, in order: 1, 2, 3, ... counted in 32 bits. */
  ghost predicate Consecutive(issued: seq<u32>) {
    forall i | 0 <= i < |issued| :: issued[i] == (i + 1) % U32_LIMIT
  }

  /** The id the next successful ovsAddPort hands out after `issued`. */
  function NextId(count: nat): (id: u32) {
    (count + 1) % U32_LIMIT
  }

  /** Until the 32-bit counter comes round, the ids handed out are distinct and never 0. */
  lemma {:induction false} IssuedDistinct(issued: seq<u32>)
    requires Consecutive(issued) && |issued| < U32_LIMIT
    ensures forall i, j | 0 <= i < j < |issued| :: issued[i] != issued[j]
    ensures 0 !in issued
  {
    forall i | 0 <= i < |issued|
      ensures issued[i] == i + 1
    {
      assert i + 1 < U32_LIMIT;
    }
  }

  /** The counter wraps: the id handed out after 2^32 ports is the first id again. */
  lemma IssuedWraps(issued: seq<u32>)
    requires Consecutive(issued) && |issued| > U32_LIMIT
    ensures issued[U32_LIMIT] == issued[0] == 1
  {
    assert issued[U32_LIMIT] == (U32_LIMIT + 1) % U32_LIMIT;
  }

  class Context {
    var nextPortId: u32
    /** The ids of the ports added so far. */
    ghost var issued: seq<u32>
    const actionBuffer: Buffer<char>

    ghost predicate Valid()
      reads this, actionBuffer
    {
      actionBuffer.Valid() && actionBuffer.eltSize == 1
      && Consecutive(issued) && nextPortId == NextId(|issued|)
    }

    /** The context ovsStart sets up: no port yet, the next id is 1, an empty action buffer. */
    constructor ()
      ensures Valid() && nextPortId == 1 && issued == []
      ensures fresh(actionBuffer) && actionBuffer.cap == 0
    {
      nextPortId := 1;
      issued := [];
      actionBuffer := new Buffer<char>(1);
    }

    /**
     * ovsAddPort: on success the port gets the current id and the counter
     * moves on by one (modulo 2^32); a failure leaves the counter alone.
     */
    method AddPort(switchErr: int, commandErr: int) returns (err: int, portId: Option<u32>)
      requires Valid()
      modifies this`nextPortId, this`issued
      ensures Valid()
      ensures switchErr != 0 ==> err == switchErr
      ensures switchErr == 0 ==> err == commandErr
      ensures err != 0 ==> portId.None? && nextPortId == old(nextPortId) && issued == old(issued)
      ensures err == 0 ==> portId == Some(old(nextPortId)) && issued == old(issued) + [old(nextPortId)]
      ensures err == 0 ==> nextPortId == (old(nextPortId) + 1) % U32_LIMIT
    {
      if switchErr != 0 {
        return switchErr, None;
      }
      if commandErr != 0 {
        return commandErr, None;
      }
      portId := Some(nextPortId);
      issued := issued + [nextPortId];
      nextPortId := (nextPortId + 1) % U32_LIMIT;
      err := 0;
      assert nextPortId == NextId(|issued|) by {
        ModSucc(|issued| - 1);
      }
    }

    /**
     * ovsArpOnly: after the switch and `del-flows` succeed, the rule printed
     * into a 256-byte buffer is the whole ARP switching rule.
     */
    method ArpOnly(priority: u32, switchErr: int, deleteErr: int, addErr: int) returns (err: int, flow: Option<string>)
      ensures switchErr != 0 ==> err == switchErr && flow.None?
      ensures switchErr == 0 && deleteErr != 0 ==> err == deleteErr && flow.None?
      ensures switchErr == 0 && deleteErr == 0 ==> err == addErr && flow == Some(ArpOnlyText(priority))
    {
      if switchErr != 0 {
        return switchErr, None;
      }
      if deleteErr != 0 {
        return deleteErr, None;
      }
      var actions := Truncated(ArpOnlyText(priority), 256);
      ArpOnlyFits(priority);
      TruncatedWhole(ArpOnlyText(priority), 256);
      flow := Some(actions[..|actions| - 1]);
      err := addErr;
    }

    /**
     * ovsAddIpFlow: the buffer ends up holding exactly the IP rule followed
     * by one NUL, and that rule is what `ovs-ofctl` receives.
     */
    method AddIpFlow(inPort: u32, srcNet: Option<string>, dstNet: Option<string>,
                     newSrcMac: Option<seq<byte>>, newDstMac: Option<seq<byte>>, outPort: u32, priority: u32,
                     switchErr: int, commandErr: int) returns (err: int, flow: Option<string>)
      requires Valid()
      requires SubnetText(srcNet) && SubnetText(dstNet) && MacGiven(newSrcMac) && MacGiven(newDstMac)
      modifies actionBuffer, actionBuffer.data
      ensures Valid()
      ensures switchErr != 0 ==> err == switchErr && flow.None?
      ensures switchErr != 0 ==> unchanged(actionBuffer) && unchanged(actionBuffer.data)
      ensures switchErr == 0 ==> err == commandErr
      ensures switchErr == 0 ==> flow == Some(IpFlowText(priority, inPort, srcNet, dstNet, newSrcMac, newDstMac, outPort))
      ensures flow.Some? ==> |flow.value| < actionBuffer.cap
      ensures flow.Some? ==> actionBuffer.data[..|flow.value|] == flow.value && actionBuffer.data[|flow.value|] == '\0'
    {
      if switchErr != 0 {
        return switchErr, None;
      }
      var len := BuildIpFlow(actionBuffer, priority, inPort, srcNet, dstNet, newSrcMac, newDstMac, outPort);
      flow := Some(actionBuffer.data[..len]);
      err := commandErr;
    }
  }

  lemma ModSucc(n: nat)
    ensures (NextId(n) + 1) % U32_LIMIT == NextId(n + 1)
  {
    var q := (n + 1) / U32_LIMIT;
    assert n + 1 == q * U32_LIMIT + NextId(n);
    if NextId(n) + 1 < U32_LIMIT {
      ModUnique(n + 2, U32_LIMIT, q, NextId(n) + 1);
    } else {
      ModUnique(n + 2, U32_LIMIT, q + 1, 0);
    }
  }
}
