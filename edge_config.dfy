/**
 * The edge-node list of NetMirage Core's command line (src/netmirage-core/main.c):
 * addEdgeNode, the `--edge-node` case of parseArg, and readSetupEdges, which
 * takes edge nodes from the groups of the setup file.  The global `args`
 * record is the class Args; its flexBuffer of edge nodes is a sequence.
 * The C library's address and MAC parsers (inet_pton, sscanf) are the
 * function parameters `parseAddr` and `parseMac`, and the setup file's
 * key lookup (g_key_file_get_string) is the parameter `lookup`.
 */
module EdgeConfig {
  import opened Base
  import opened Ip
  import opened EdgeArgs

  /** One configured edge node: its address, and the interface, MAC and client subnet when given. */
  datatype EdgeNode = EdgeNode(ip: u32, intf: Option<string>, mac: Option<seq<byte>>, vsubnet: Option<Subnet>)

  /**
   * addEdgeNode's reading of its four strings, the last three possibly
   * absent: the edge node they describe, or None when one is invalid.
   */
  function NodeOf(ipStr: string, intfStr: Option<string>, macStr: Option<string>, vsubnetStr: Option<string>,
                  parseAddr: string -> Option<u32>, parseMac: string -> Option<seq<byte>>): (r: Option<EdgeNode>)
    ensures r.Some? <==>
              && parseAddr(ipStr).Some?
              && intfStr != Some([])
              && (macStr.Some? ==> parseMac(macStr.value).Some?)
              && (vsubnetStr.Some? ==> GetSubnet(vsubnetStr.value, parseAddr).Some?)
    ensures r.Some? ==> r.value.ip == parseAddr(ipStr).value && r.value.intf == intfStr
    ensures r.Some? ==> (r.value.mac.Some? <==> macStr.Some?) && (r.value.vsubnet.Some? <==> vsubnetStr.Some?)
  {
    match parseAddr(ipStr)
    case None => None
    case Some(ip) =>
      if intfStr == Some([]) then None
      else
        var mac := if macStr.Some? then parseMac(macStr.value) else None;
        var vsubnet := if vsubnetStr.Some? then GetSubnet(vsubnetStr.value, parseAddr) else None;
        if macStr.Some? && mac.None? then None
        else if vsubnetStr.Some? && vsubnet.None? then None
        else Some(EdgeNode(ip, intfStr, mac, vsubnet))
  }

  /** The node an `--edge-node` argument describes, if the argument is valid. */
  function ArgNode(s: string, parseAddr: string -> Option<u32>, parseMac: string -> Option<seq<byte>>): Option<EdgeNode> {
    match EdgeArg(s)
    case None => None
    case Some(f) => NodeOf(f.ip, f.intf, f.mac, f.vsubnet, parseAddr, parseMac)
  }

  /**
   * `strncmp(a, b, n) == 0` on C strings without NULs inside: the first n
   * characters agree, where each string ends in a NUL that compares too.
   */
  predicate StrNEqual(a: string, b: string, n: nat)
    decreases n
  {
    if n == 0 then true
    else if a == [] || b == [] then a == b
    else a[0] == b[0] && StrNEqual(a[1..], b[1..], n - 1)
  }

  /** Compared with a string of n characters over n characters, strncmp holds exactly for the strings that start with it. */
  lemma {:induction false} StrNEqualPrefix(a: string, b: string)
    ensures StrNEqual(a, b, |b|) <==> |a| >= |b| && a[..|b|] == b
    decreases |b|
  {
    if b != [] && a != [] {
      StrNEqualPrefix(a[1..], b[1..]);
      if |a| >= |b| {
        assert a[..|b|] == [a[0]] + a[1..][..|b| - 1];
        assert b == [b[0]] + b[1..];
      }
    }
  }

  /** readSetupEdges' test: groups whose names begin with "edge" or "node" describe edge nodes. */
  predicate IsEdgeGroup(group: string) {
    StrNEqual(group, "edge", 4) || StrNEqual(group, "node", 4)
  }

  /** A group describes an edge node exactly when its name has at least four characters and begins with "edge" or "node". */
  lemma EdgeGroupNames(group: string)
    ensures IsEdgeGroup(group) <==> |group| >= 4 && (group[..4] == "edge" || group[..4] == "node")
  {
    StrNEqualPrefix(group, "edge");
    StrNEqualPrefix(group, "node");
  }

  /** The node a setup file group describes: its "ip", "iface", "mac" and "vsubnet" keys. */
  function GroupNode(group: string, lookup: (string, string) -> Option<string>,
                     parseAddr: string -> Option<u32>, parseMac: string -> Option<seq<byte>>): Option<EdgeNode>
    requires lookup(group, "ip").Some?
  {
    NodeOf(lookup(group, "ip").value, lookup(group, "iface"), lookup(group, "mac"), lookup(group, "vsubnet"), parseAddr, parseMac)
  }

  /** Every edge group names its address. */
  predicate AddressesGiven(groups: seq<string>, lookup: (string, string) -> Option<string>) {
    forall i | 0 <= i < |groups| :: IsEdgeGroup(groups[i]) ==> lookup(groups[i], "ip").Some?
  }

  /** What readSetupEdges reads from the groups: the nodes it adds, and whether every edge group was valid. */
  datatype SetupRead = SetupRead(nodes: seq<EdgeNode>, ok: bool)

  /** readSetupEdges over the groups in order: other groups are skipped, and the first invalid edge group stops the reading. */
  function SetupNodes(groups: seq<string>, lookup: (string, string) -> Option<string>,
                      parseAddr: string -> Option<u32>, parseMac: string -> Option<seq<byte>>): SetupRead
    requires AddressesGiven(groups, lookup)
    decreases |groups|
  {
    if groups == [] then SetupRead([], true)
    else
      var rest := groups[1..];
      assert AddressesGiven(rest, lookup) by {
        forall i | 0 <= i < |rest| && IsEdgeGroup(rest[i])
          ensures lookup(rest[i], "ip").Some?
        {
          assert rest[i] == groups[i + 1];
        }
      }
      if !IsEdgeGroup(groups[0]) then SetupNodes(rest, lookup, parseAddr, parseMac)
      else
        match GroupNode(groups[0], lookup, parseAddr, parseMac)
        case None => SetupRead([], false)
        case Some(node) =>
          var read := SetupNodes(rest, lookup, parseAddr, parseMac);
          SetupRead([node] + read.nodes, read.ok)
  }

  /** One group of the reading: skipped, stopping, or adding its node in front of the rest. */
  lemma SetupFront(groups: seq<string>, lookup: (string, string) -> Option<string>,
                   parseAddr: string -> Option<u32>, parseMac: string -> Option<seq<byte>>)
    requires groups != [] && AddressesGiven(groups, lookup)
    ensures AddressesGiven(groups[1..], lookup)
    ensures !IsEdgeGroup(groups[0]) ==>
              SetupNodes(groups, lookup, parseAddr, parseMac) == SetupNodes(groups[1..], lookup, parseAddr, parseMac)
    ensures IsEdgeGroup(groups[0]) ==> lookup(groups[0], "ip").Some?
    ensures IsEdgeGroup(groups[0]) && GroupNode(groups[0], lookup, parseAddr, parseMac).None? ==>
              SetupNodes(groups, lookup, parseAddr, parseMac) == SetupRead([], false)
    ensures IsEdgeGroup(groups[0]) && GroupNode(groups[0], lookup, parseAddr, parseMac).Some? ==>
              var read := SetupNodes(groups[1..], lookup, parseAddr, parseMac);
              SetupNodes(groups, lookup, parseAddr, parseMac) ==
                SetupRead([GroupNode(groups[0], lookup, parseAddr, parseMac).value] + read.nodes, read.ok)
  {
    var rest := groups[1..];
    forall i | 0 <= i < |rest| && IsEdgeGroup(rest[i])
      ensures lookup(rest[i], "ip").Some?
    {
      assert rest[i] == groups[i + 1];
    }
  }

  /** The edge groups among `groups`, in order. */
  function EdgeGroups(groups: seq<string>): seq<string>
    decreases |groups|
  {
    if groups == [] then []
    else if IsEdgeGroup(groups[0]) then [groups[0]] + EdgeGroups(groups[1..])
    else EdgeGroups(groups[1..])
  }

  /**
   * A successful reading adds exactly one node per edge group, each the node
   * its group describes; a failed one adds fewer.
   */
  lemma {:induction false} SetupNodesPerGroup(groups: seq<string>, lookup: (string, string) -> Option<string>,
                                              parseAddr: string -> Option<u32>, parseMac: string -> Option<seq<byte>>)
    requires AddressesGiven(groups, lookup)
    ensures var read := SetupNodes(groups, lookup, parseAddr, parseMac);
      read.ok ==> |read.nodes| == |EdgeGroups(groups)|
    ensures var read := SetupNodes(groups, lookup, parseAddr, parseMac);
      !read.ok ==> |read.nodes| < |EdgeGroups(groups)|
    decreases |groups|
  {
    if groups != [] {
      var rest := groups[1..];
      assert AddressesGiven(rest, lookup) by {
        forall i | 0 <= i < |rest| && IsEdgeGroup(rest[i])
          ensures lookup(rest[i], "ip").Some?
        {
          assert rest[i] == groups[i + 1];
        }
      }
      SetupNodesPerGroup(rest, lookup, parseAddr, parseMac);
    }
  }

  /** The program's argument record: the edge nodes so far, and whether they came from the setup file. */
  class Args {
    var edgeNodes: seq<EdgeNode>
    var loadedEdgesFromSetup: bool

    constructor()
      ensures edgeNodes == [] && !loadedEdgesFromSetup
    {
      edgeNodes := [];
      loadedEdgesFromSetup := false;
    }

    /**
     * addEdgeNode: append the node the strings describe, or change nothing
     * and report failure when one of them is invalid.
     */
    method AddEdgeNode(ipStr: string, intfStr: Option<string>, macStr: Option<string>, vsubnetStr: Option<string>,
                       parseAddr: string -> Option<u32>, parseMac: string -> Option<seq<byte>>) returns (added: bool)
      modifies this`edgeNodes
      ensures added <==> NodeOf(ipStr, intfStr, macStr, vsubnetStr, parseAddr, parseMac).Some?
      ensures added ==> edgeNodes == old(edgeNodes) + [NodeOf(ipStr, intfStr, macStr, vsubnetStr, parseAddr, parseMac).value]
      ensures !added ==> edgeNodes == old(edgeNodes)
    {
      var ip := parseAddr(ipStr);
      if ip.None? {
        return false;
      }
      if intfStr.Some? && intfStr.value == [] {
        return false;
      }
      var mac: Option<seq<byte>> := None;
      if macStr.Some? {
        mac := parseMac(macStr.value);
        if mac.None? {
          return false;
        }
      }
      var vsubnet: Option<Subnet> := None;
      if vsubnetStr.Some? {
        vsubnet := GetSubnet(vsubnetStr.value, parseAddr);
        if vsubnet.None? {
          return false;
        }
      }
      edgeNodes := edgeNodes + [EdgeNode(ip.value, intfStr, mac, vsubnet)];
      return true;
    }

    /**
     * parseArg's `--edge-node` case.  The argument is ignored when it comes
     * from the setup file's emulator group; otherwise the first one after
     * edge nodes were loaded from the setup file drops those, and the
     * argument's node is appended, or the result is EINVAL.
     */
    method EdgeNodeArg(arg: array<char>, fromSetupFile: bool,
                       parseAddr: string -> Option<u32>, parseMac: string -> Option<seq<byte>>) returns (err: int)
      requires '\0' !in arg[..]
      modifies this, arg
      ensures fromSetupFile ==> err == 0 && unchanged(this) && unchanged(arg)
      ensures !fromSetupFile ==> !loadedEdgesFromSetup
      ensures !fromSetupFile ==> err == if ArgNode(old(arg[..]), parseAddr, parseMac).Some? then 0 else EINVAL
      ensures !fromSetupFile ==>
                var kept := if old(loadedEdgesFromSetup) then [] else old(edgeNodes);
                edgeNodes == kept + (if err == 0 then [ArgNode(old(arg[..]), parseAddr, parseMac).value] else [])
    {
      if fromSetupFile {
        return 0;
      }
      if loadedEdgesFromSetup {
        edgeNodes := [];
        loadedEdgesFromSetup := false;
      }
      ghost var s := arg[..];
      var ptrs := SplitEdgeArg(arg);
      SplitMeaning(s, arg[..]);
      if ptrs.None? {
        return EINVAL;
      }
      var fields := Fetch(arg[..], ptrs.value);
      var added := AddEdgeNode(fields.ip, fields.intf, fields.mac, fields.vsubnet, parseAddr, parseMac);
      if !added {
        return EINVAL;
      }
      return 0;
    }

    /**
     * One group of readSetupEdges: an edge group's node is added and the
     * list marked as loaded from the setup file, or the reading fails;
     * other groups change nothing.
     */
    method ReadGroup(group: string, lookup: (string, string) -> Option<string>,
                     parseAddr: string -> Option<u32>, parseMac: string -> Option<seq<byte>>) returns (added: bool)
      requires IsEdgeGroup(group) ==> lookup(group, "ip").Some?
      modifies this
      ensures !IsEdgeGroup(group) ==> added && edgeNodes == old(edgeNodes) && loadedEdgesFromSetup == old(loadedEdgesFromSetup)
      ensures IsEdgeGroup(group) ==> (added <==> GroupNode(group, lookup, parseAddr, parseMac).Some?)
      ensures !added ==> edgeNodes == old(edgeNodes) && loadedEdgesFromSetup == old(loadedEdgesFromSetup)
      ensures IsEdgeGroup(group) && added ==>
                edgeNodes == old(edgeNodes) + [GroupNode(group, lookup, parseAddr, parseMac).value] && loadedEdgesFromSetup
    {
      if !IsEdgeGroup(group) {
        return true;
      }
      added := AddEdgeNode(lookup(group, "ip").value, lookup(group, "iface"), lookup(group, "mac"),
                           lookup(group, "vsubnet"), parseAddr, parseMac);
      if added {
        loadedEdgesFromSetup := true;
      }
    }

    /**
     * readSetupEdges: add the node of every edge group in order, marking the
     * list as loaded from the setup file after each; stop with false at the
     * first invalid one.
     */
    method ReadSetupEdges(groups: seq<string>, lookup: (string, string) -> Option<string>,
                          parseAddr: string -> Option<u32>, parseMac: string -> Option<seq<byte>>) returns (ok: bool)
      requires AddressesGiven(groups, lookup)
      modifies this
      ensures ok == SetupNodes(groups, lookup, parseAddr, parseMac).ok
      ensures edgeNodes == old(edgeNodes) + SetupNodes(groups, lookup, parseAddr, parseMac).nodes
      ensures loadedEdgesFromSetup == (old(loadedEdgesFromSetup) || SetupNodes(groups, lookup, parseAddr, parseMac).nodes != [])
    {
      ghost var all := SetupNodes(groups, lookup, parseAddr, parseMac);
      ghost var before, wasLoaded := edgeNodes, loadedEdgesFromSetup;
      ghost var read: seq<EdgeNode> := [];
      var rest := groups;
      while rest != []
        invariant AddressesGiven(rest, lookup)
        invariant edgeNodes == before + read
        invariant read + SetupNodes(rest, lookup, parseAddr, parseMac).nodes == all.nodes
        invariant SetupNodes(rest, lookup, parseAddr, parseMac).ok == all.ok
        invariant loadedEdgesFromSetup == (wasLoaded || read != [])
        decreases |rest|
      {
        SetupFront(rest, lookup, parseAddr, parseMac);
        var added := ReadGroup(rest[0], lookup, parseAddr, parseMac);
        if !added {
          return false;
        }
        if IsEdgeGroup(rest[0]) {
          read := read + [GroupNode(rest[0], lookup, parseAddr, parseMac).value];
        }
        rest := rest[1..];
      }
      return true;
    }
  }
}
