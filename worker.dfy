/**
 * Three pieces of the worker (src/worker.c): sizing the kernel's ARP table
 * for a topology, looking up the MAC address of an edge node with pings in
 * between, and creating or joining the private root namespace.  Every kernel
 * read or write, fork and command is outside the model: what it returns is a
 * parameter.
 */
module Worker {
  import opened Base

  // ---------------------------------------------------------------------
  // ARP table scaling (workerEnsureSystemScaling)
  // ---------------------------------------------------------------------

  /** The three garbage-collection thresholds of the kernel's neighbour table. */
  datatype Thresholds = Thresholds(gc1: int, gc2: int, gc3: int)

  /** What workerEnsureSystemScaling returns, and the thresholds it writes, if any. */
  datatype Scaling = Scaling(err: int, written: Option<Thresholds>)

  /** Static ARP entries a topology needs: two per link, three per client node, and 100 spare. */
  function NeededEntries(linkCount: nat, clientNodes: nat): (n: nat)
    ensures n >= 100 && n >= 2 * linkCount && n >= 3 * clientNodes
  {
    2 * linkCount + 3 * clientNodes + 100
  }

  /** The same count as the 64-bit arithmetic of the code computes it. */
  function NeededAsWritten(linkCount: u64, clientNodes: u32): (n: u64)
    ensures NeededEntries(linkCount, clientNodes) < U64_LIMIT ==> n == NeededEntries(linkCount, clientNodes)
  {
    (2 * linkCount + 3 * clientNodes + 100) % U64_LIMIT
  }

  /**
   * The decision for a given count: switch and read errors are returned, a
   * count above INT_MAX is refused with 1, a table already large enough is
   * left alone, and otherwise every threshold is raised by what gc2 lacks.
   */
  function ScalingFor(needed: nat, switchErr: int, getErr: int, current: Thresholds, setErr: int): (r: Scaling)
    ensures r.written.Some? <==> switchErr == 0 && getErr == 0 && current.gc2 < needed <= INT_MAX
    ensures r.written.Some? ==> r.written.value.gc2 == needed
    ensures r.written.Some? ==> r.written.value.gc2 - r.written.value.gc1 == current.gc2 - current.gc1
    ensures r.written.Some? ==> r.written.value.gc3 - r.written.value.gc2 == current.gc3 - current.gc2
    ensures r.err == 0 <==> switchErr == 0 && getErr == 0 && needed <= INT_MAX && (needed <= current.gc2 || setErr == 0)
    ensures switchErr == 0 && getErr == 0 && needed > INT_MAX ==> r.err == 1
  {
    if switchErr != 0 then Scaling(switchErr, None)
    else if getErr != 0 then Scaling(getErr, None)
    else if needed > INT_MAX then Scaling(1, None)
    else if needed <= current.gc2 then Scaling(0, None)
    else
      var extra := needed - current.gc2;
      Scaling(setErr, Some(Thresholds(current.gc1 + extra, current.gc2 + extra, current.gc3 + extra)))
  }

  /** workerEnsureSystemScaling with the count computed without wrap-around. */
  function EnsureSystemScaling(linkCount: u64, clientNodes: u32, switchErr: int, getErr: int, current: Thresholds,
                               setErr: int): (r: Scaling)
    ensures r.written.Some? <==> switchErr == 0 && getErr == 0 && current.gc2 < NeededEntries(linkCount, clientNodes) <= INT_MAX
    ensures r.written.Some? ==> r.written.value.gc2 == NeededEntries(linkCount, clientNodes)
  {
    ScalingFor(NeededEntries(linkCount, clientNodes), switchErr, getErr, current, setErr)
  }

  /** workerEnsureSystemScaling as written: the count wraps modulo 2^64 before the INT_MAX guard. */
  function EnsureSystemScalingAsWritten(linkCount: u64, clientNodes: u32, switchErr: int, getErr: int,
                                        current: Thresholds, setErr: int): (r: Scaling)
    ensures NeededEntries(linkCount, clientNodes) < U64_LIMIT ==>
              r == EnsureSystemScaling(linkCount, clientNodes, switchErr, getErr, current, setErr)
  {
    ScalingFor(NeededAsWritten(linkCount, clientNodes), switchErr, getErr, current, setErr)
  }

  /** Raising the thresholds keeps them in order and makes each of them larger. */
  lemma ScalingGrows(needed: nat, switchErr: int, getErr: int, current: Thresholds, setErr: int)
    requires current.gc1 <= current.gc2 <= current.gc3
    ensures var r := ScalingFor(needed, switchErr, getErr, current, setErr);
      r.written.Some? ==>
        var t := r.written.value;
        t.gc1 <= t.gc2 <= t.gc3 && t.gc1 > current.gc1 && t.gc2 > current.gc2 && t.gc3 > current.gc3
  {
  }

  /** Once the thresholds are written, the same topology finds the table large enough: nothing more is written. */
  lemma ScalingSettles(needed: nat, current: Thresholds, setErr: int, setErr': int)
    requires ScalingFor(needed, 0, 0, current, setErr).written.Some?
    ensures ScalingFor(needed, 0, 0, ScalingFor(needed, 0, 0, current, setErr).written.value, setErr') == Scaling(0, None)
  {
  }

  /**
   * A topology with 2^63 links: the 64-bit count wraps to 100, so the code
   * as written reports success without touching the table, while the count
   * it means is far above INT_MAX and is refused.
   */
  lemma NeededWraps(current: Thresholds)
    requires current.gc2 >= 100
    ensures NeededAsWritten(0x8000_0000_0000_0000, 0) == 100
    ensures EnsureSystemScalingAsWritten(0x8000_0000_0000_0000, 0, 0, 0, current, 0) == Scaling(0, None)
    ensures EnsureSystemScaling(0x8000_0000_0000_0000, 0, 0, 0, current, 0) == Scaling(1, None)
  {
    assert 2 * 0x8000_0000_0000_0000 + 100 == U64_LIMIT + 100;
  }

  // ---------------------------------------------------------------------
  // Remote MAC lookup (workerGetEdgeRemoteMac)
  // ---------------------------------------------------------------------

  const MAC_ATTEMPTS: nat := 5

  /**
   * workerGetEdgeRemoteMac: up to five lookups in the neighbour table; after
   * each EAGAIN a ping is forked to fill the table.  `lookup(k)` is the result
   * of lookup k and `forkErr(k)` the error of the fork after it (0 when the
   * ping ran; its exit status only produces a warning).  `asked` is the
   * number of lookups made.
   */
  method GetEdgeRemoteMac(switchErr: int, lookup: nat -> int, forkErr: nat -> int) returns (res: int, asked: nat)
    ensures switchErr != 0 ==> res == switchErr && asked == 0
    ensures switchErr == 0 ==> 1 <= asked <= MAC_ATTEMPTS
    ensures switchErr == 0 ==> forall k | 0 <= k < asked - 1 :: lookup(k) == EAGAIN && forkErr(k) == 0
    ensures switchErr == 0 && lookup(asked - 1) == 0 ==> res == 0
    ensures switchErr == 0 && lookup(asked - 1) != 0 && lookup(asked - 1) != EAGAIN ==> res == lookup(asked - 1)
    ensures switchErr == 0 && lookup(asked - 1) == EAGAIN && forkErr(asked - 1) != 0 ==> res == forkErr(asked - 1)
    ensures switchErr == 0 && lookup(asked - 1) == EAGAIN && forkErr(asked - 1) == 0 ==> asked == MAC_ATTEMPTS && res == 1
    ensures switchErr == 0 ==> (res == 0 <==> lookup(asked - 1) == 0)
  {
    if switchErr != 0 {
      return switchErr, 0;
    }
    var attempt := 0;
    while attempt < MAC_ATTEMPTS
      invariant 0 <= attempt <= MAC_ATTEMPTS
      invariant forall k | 0 <= k < attempt :: lookup(k) == EAGAIN && forkErr(k) == 0
    {
      res := lookup(attempt);
      if res == 0 {
        return 0, attempt + 1;
      }
      if res != EAGAIN {
        return res, attempt + 1;
      }
      if forkErr(attempt) != 0 {
        return forkErr(attempt), attempt + 1;
      }
      attempt := attempt + 1;
    }
    return 1, MAC_ATTEMPTS;
  }

  // ---------------------------------------------------------------------
  // The root namespace (workerAddRoot)
  // ---------------------------------------------------------------------

  /** A non-zero error code. */
  type ErrorCode = e: int | e != 0 witness 1

  /**
   * What ovsStart did: returned a context; returned NULL after a step that
   * stored its non-zero error in `*err`; or returned NULL because the stale
   * database file could not be deleted, which leaves `*err` untouched.
   */
  datatype SwitchStart = Started | Failed(code: ErrorCode) | UnlinkFailed(errno: ErrorCode)

  /** The worker's root globals: whether the namespace and the switch are open, and the root's addresses. */
  class Root {
    var rootNetOpen: bool
    var rootSwitchOpen: bool
    var rootIpSelf: u32
    var rootIpOther: u32

    /** The globals before any root command. */
    constructor ()
      ensures !rootNetOpen && !rootSwitchOpen
    {
      rootNetOpen := false;
      rootSwitchOpen := false;
      rootIpSelf := 0;
      rootIpOther := 0;
    }

    /**
     * workerAddRoot: joining an existing root this worker already opened is
     * ignored.  Otherwise the namespace is opened (and configured when it is
     * new), the addresses are recorded, the switch is started, and a new
     * root also gets its bridge and the ARP-only rule; the first step that
     * fails gives the result, read from the error variable that a failed
     * switch start may have left at 0.  `openErr`, `paramsErr`, `start`,
     * `bridgeErr` and `arpErr` are what those steps return.
     */
    method AddRoot(addrSelf: u32, addrOther: u32, existing: bool,
                   openErr: int, paramsErr: int, start: SwitchStart, bridgeErr: int, arpErr: int) returns (err: int)
      modifies this
      ensures existing && old(rootNetOpen) ==> err == 0
      ensures existing && old(rootNetOpen) ==> unchanged(this)
      ensures !(existing && old(rootNetOpen)) ==> rootNetOpen == (openErr == 0)
      ensures !(existing && old(rootNetOpen)) ==> err == RootSetupResultAsWritten(existing, openErr, paramsErr, start, bridgeErr, arpErr)
      ensures !(existing && old(rootNetOpen)) && RootAddressesSet(existing, openErr, paramsErr) ==>
        rootIpSelf == addrSelf && rootIpOther == addrOther && rootSwitchOpen == start.Started?
      ensures !(existing && old(rootNetOpen)) && !RootAddressesSet(existing, openErr, paramsErr) ==>
        rootIpSelf == old(rootIpSelf) && rootIpOther == old(rootIpOther) && rootSwitchOpen == old(rootSwitchOpen)
    {
      if existing && rootNetOpen {
        return 0;
      }
      err := 0;
      rootNetOpen := openErr == 0;
      if !rootNetOpen {
        return openErr;
      }
      if !existing && paramsErr != 0 {
        return paramsErr;
      }
      rootIpSelf := addrSelf;
      rootIpOther := addrOther;
      rootSwitchOpen := start.Started?;
      if start.Failed? {
        err := start.code;
      }
      if !rootSwitchOpen {
        return err;
      }
      if !existing {
        if bridgeErr != 0 {
          return bridgeErr;
        }
        if arpErr != 0 {
          return arpErr;
        }
      }
      return 0;
    }
  }

  /** The addresses are recorded once the namespace is open and, when new, configured. */
  predicate RootAddressesSet(existing: bool, openErr: int, paramsErr: int) {
    openErr == 0 && (existing || paramsErr == 0)
  }

  /**
   * The result of a root setup that is carried out, as workerAddRoot computes
   * it: the error of its first failing step, or 0; a switch start that failed
   * to delete the stale database reports 0.
   */
  function RootSetupResultAsWritten(existing: bool, openErr: int, paramsErr: int, start: SwitchStart,
                                    bridgeErr: int, arpErr: int): (err: int)
    ensures err == 0 <==> openErr == 0 && (existing || paramsErr == 0)
                          && (start.UnlinkFailed? || (start.Started? && (existing || (bridgeErr == 0 && arpErr == 0))))
  {
    if openErr != 0 then openErr
    else if !existing && paramsErr != 0 then paramsErr
    else if start.Failed? then start.code
    else if start.UnlinkFailed? then 0
    else if !existing && bridgeErr != 0 then bridgeErr
    else if !existing && arpErr != 0 then arpErr
    else 0
  }

  /** A root whose switch never started, because the stale database could not be deleted, is reported as set up. */
  lemma UnlinkFailureReportsSuccess(errno: ErrorCode, bridgeErr: int, arpErr: int)
    ensures RootSetupResultAsWritten(false, 0, 0, UnlinkFailed(errno), bridgeErr, arpErr) == 0
  {
  }

  /**
   * The result of a root setup as intended: the error of its first failing
   * step, the errno of a failed deletion of the stale database included, or 0.
   */
  function RootSetupResult(existing: bool, openErr: int, paramsErr: int, start: SwitchStart, bridgeErr: int, arpErr: int)
    : (err: int)
    ensures err == 0 <==> openErr == 0 && start.Started? && (existing || (paramsErr == 0 && bridgeErr == 0 && arpErr == 0))
    ensures existing ==> err == (if openErr != 0 then openErr else StartError(start))
    ensures openErr == 0 && (existing || paramsErr == 0) && !start.Started? ==> err == StartError(start)
  {
    if openErr != 0 then openErr
    else if !existing && paramsErr != 0 then paramsErr
    else if !start.Started? then StartError(start)
    else if !existing && bridgeErr != 0 then bridgeErr
    else if !existing && arpErr != 0 then arpErr
    else 0
  }

  /** The error a switch start reports when ovsStart stores the errno of a failed deletion. */
  function StartError(start: SwitchStart): int {
    match start
    case Started => 0
    case Failed(code) => code
    case UnlinkFailed(errno) => errno
  }

  /** The two agree on every setup whose switch start did not stumble on the stale database. */
  lemma RootSetupAgrees(existing: bool, openErr: int, paramsErr: int, start: SwitchStart, bridgeErr: int, arpErr: int)
    requires !start.UnlinkFailed?
    ensures RootSetupResultAsWritten(existing, openErr, paramsErr, start, bridgeErr, arpErr)
         == RootSetupResult(existing, openErr, paramsErr, start, bridgeErr, arpErr)
  {
  }
}
