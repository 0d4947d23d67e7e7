# NetMirage core, modelled in Dafny

NetMirage emulates large IP networks on one Linux host. Each emulated node is a
network namespace. Each link is a veth pair with traffic shaping. Open vSwitch
bridges connect the namespaces to real "edge" machines. This project models the
parts of the emulator that compute something, and proves what they promise:

- **Addresses**
  - IPv4 subnet parsing, masks and sizes; the iterator over a subnet that skips
    avoided ranges; the fragmenting of a subnet (`src/ip.c`).
  - MAC address increments (`src/ip.c`).
- **Memory**
  - The overflow-checked allocators and the growable "flex buffer", in both
    copies (`src/common/lib/mem.c`, `src/mem.c`).
- **rtnetlink, in both generations**
  - The shared message buffer, the request builder with nested attributes, the
    send loop and the response loop (`src/common/lib/netlink.c`,
    `src/netlink.c`).
  - The link, address and route requests built on them (`src/net.c`).
- **Routing**
  - The all-pairs route planner: the blocked, cache-friendly Floyd-Warshall with
    a thread pool (`src/netmirage-core/routeplanner.c`).
  - The first, plain Floyd-Warshall (`src/routeplanner.c`).
- **Caching**
  - The bounded cache of open namespace contexts
    (`src/netmirage-core/netcache.c`, `src/netcache.c`).
- **Open vSwitch**
  - The rule texts handed to `ovs-ofctl`, the port counter and the tool-version
    check (`src/netmirage-core/ovs.c`, `src/ovs.c`).
- **Worker and command line**
  - The worker's ARP-table scaling, remote MAC lookup and root-namespace setup
    (`src/worker.c`).
  - The `--edge-node` argument splitter and the setup-file edge groups
    (`src/netmirage-core/main.c`).
  - The enumerated-option matcher (`src/common/lib/app.c`).

The model takes the form of the code:

- State the C code updates in place is a `class`:
  - the shared netlink buffer;
  - a netlink context;
  - a flex buffer;
  - the route planner and its table;
  - the namespace cache;
  - the IP iterators;
  - the OVS context;
  - the worker's root globals;
  - the argument record.
- Loops over arrays are methods with loop invariants. Each is proved against a
  specification function whose properties are lemmas.
- Pure computations are functions.

Everything outside the process is a parameter: the kernel, child processes,
inet_pton, strtod and glib. Examples are the errno of a failed `sendmsg`, the
datagrams `recvmsg` returns, and the exit status of `ovs-ofctl`.

Where the code and the project's own description of it differ, the model follows
the code:

- **Failed `recvmsg`.** Only EINTR is retried. Both response loops compare the
  return value `res`, which is -1, with ENOBUFS and EAGAIN, so those tests never
  hold. A failed read with ENOBUFS or EAGAIN ends the exchange with errno
  (`NlWire.RecvRetried`).
- **Acknowledgements.** An NLMSG_ERROR with error code 0 is handed to the
  response handler, in both generations (`NetlinkNewReceive.AckReachesHandler`,
  `NetlinkOldReceive.FirstMatchHandled`).
- **NLMSG_DONE in the older loop.** It ends the walk over a datagram whatever
  its sequence number (`NetlinkOldReceive.StopsAtDone`).
- **veth nesting.** The veth request nests attributes four deep (IFLA_LINKINFO,
  IFLA_INFO_DATA, VETH_INFO_PEER, IFLA_IFNAME), within MAX_ATTR_NEST = 10
  (`NetMessages.VethShape`).
- **Deleting an address.** The request always waits for the kernel's answer.
  Only its NLM_F_ACK flag follows `sync` (`NetMessages.DelInterfaceAddrIPv4`).

Two notes on representation:

- IPv4 addresses in the subnet, iteration and route code are 32-bit values in
  host byte order. The C code applies `ntohl`/`htonl` around the same bitwise
  operations, which commute with a byte permutation. ovsAddArpResponse is the
  exception: it shifts the stored (network-order) value with no conversion, so
  the `ip` of `Ovs.Context.AddArpResponse` is that stored value as the C reads
  it, and its hex octets are its bytes from the least significant up.
- Weights are `Finite(int)` or `Infinity`, standing for the C floats the
  planners add and compare.

## Model

| member | source | states |
|---|---|---|
| App.UserIndex | src/common/lib/app.c:235-237 | an argument that strtol does not consume entirely names no position (-1); otherwise the position is a `long` |
| App.LastDigit | src/common/lib/app.c:236-237 | a nonempty string that strtol consumes entirely ends in a digit |
| App.MatchArg | src/common/lib/app.c:232-249 | an empty argument gives -1; otherwise the answer is the first option selected by position or by case-insensitive name, and -1 means no option is selected |
| App.NumberSelects | src/common/lib/app.c:236-243 | the decimal text of a position selects the option at that position |
| FlexBuffer.AllocSize | src/common/lib/mem.c:45-48 | the byte count `mul1 * mul2 + add`, or None exactly where a product or sum overflows `size_t` and the program aborts |
| FlexBuffer.AllocBytes | src/common/lib/mem.c:50-54 | eamalloc: a fresh block of exactly the computed size, or null where the size overflows |
| FlexBuffer.AllocZeroedBytes | src/common/lib/mem.c:56-60 | eacalloc: as eamalloc, and every byte is zero |
| FlexBuffer.ReallocBytes | src/common/lib/mem.c:62-66 | earealloc: a block of the new size that keeps the old contents up to the shorter length |
| FlexBuffer.GrownCapacity | src/common/lib/mem.c:83-100 | the capacity is unchanged when `len + extra` fits; otherwise it is `2 * (len + extra)`; it always holds `len + extra` |
| FlexBuffer.Buffer.constructor | src/common/lib/mem.c:68-72 | a new buffer has a NULL block and capacity 0 |
| FlexBuffer.Buffer.ResetLength | src/common/lib/mem.c:68-81 | a tracked length becomes 0; an untracked one stays untracked |
| FlexBuffer.Buffer.Init | src/common/lib/mem.c:68-72 | flexBufferInit: block NULL, capacity 0, tracked length 0 |
| FlexBuffer.Buffer.Free | src/common/lib/mem.c:74-81 | flexBufferFree returns the buffer to the state flexBufferInit gives |
| FlexBuffer.Buffer.Grow | src/common/lib/mem.c:83-100 | nothing changes when the elements fit; otherwise the capacity becomes GrownCapacity and every old element survives the reallocation; it aborts exactly when a size overflows |
| FlexBuffer.Buffer.Append | src/common/lib/mem.c:102-113 | `src` lands at the tracked length (or at 0 when untracked) and the length advances by its size; other elements are untouched |
| FlexBuffer.GrowAppendStr | src/common/lib/mem.c:115-119 | the string and its NUL follow the old contents, and the length grows by strlen + 1 |
| FlexBuffer.TryPrintf | src/common/lib/mem.c:121-132 | the answer is 0 exactly when the text and its NUL fit the free space, and then they are written at the length; otherwise it is the space needed |
| FlexBuffer.Printf | src/common/lib/mem.c:134-144 | afterwards the buffer holds the old prefix, the whole formatted text and a NUL, and the length points past that NUL; an encoding error changes nothing |
| NetCache.Cache.constructor | src/netmirage-core/netcache.c:62-71 | an empty cache whose capacity is the estimate, raised to at least MIN_ENTRIES |
| NetCache.Cache.OpenNamespace | src/netmirage-core/netcache.c:88-128 | a hit answers the cached context or the switch error and changes nothing; a miss on a full cache evicts the oldest entry, even if the open then fails; a successful open becomes the newest entry; the map and the creation order stay consistent and within capacity |
| NetCache.Evicted | src/netmirage-core/netcache.c:103-112 | after eviction there is room for one more entry |
| CText.StrToL | src/ip.c:61-62 | strtol in base 10 stops within the string, saturates at the `long` range, and reads 0 when no digit was consumed |
| CText.Dec | src/ip.c:101 | `%u` renders a nonempty run of digits |
| CText.DecValue | src/ip.c:101 | reading back a rendered number gives the number |
| CText.StrToLDec | src/ip.c:61-62 | strtol reads the whole rendering of a number and returns it |
| CText.StrToLDigits | src/ip.c:61-62 | a nonempty run of digits is read whole, as its saturated value |
| CText.EqualsIgnoreCase | src/common/lib/app.c:243 | strcasecmp(a, b) == 0 in the "C" locale: equal lengths and equal after ASCII case folding |
| CText.Find | src/ip.c:47 | strchr: a found index holds the character |
| CText.FindFirstOccurrence | src/ip.c:47 | strchr finds the first occurrence, and nothing only when there is none |
| CText.FindFirst | src/ip.c:47 | an occurrence with none before it is the one strchr finds |
| CText.Truncated | src/net.c:112 | snprintf leaves a NUL-terminated text of at most the buffer size |
| CText.TruncatedWhole | src/net.c:112-114 | the whole text is kept exactly when it is shorter than the buffer |
| Ip.HostMask | src/ip.c:76-78 | the mask with the low 32 - p bits set, 2^(32-p) - 1; what it does to an address is stated by Ip.AddrMasks |
| Ip.SubnetMask | src/ip.c:72-74 | the complement of the host mask within 32 bits; its value is stated by Ip.MaskComplement |
| Ip.SubnetStart | src/ip.c:80-82 | the subnet's stored address |
| Ip.SubnetEnd | src/ip.c:84-86 | the address with every host bit set; Ip.SubnetBounds states it is the start plus the host mask |
| Ip.SubnetSize | src/ip.c:88-92 | 2^(32-p) addresses, two fewer when reserved addresses are excluded and more than two remain |
| Ip.MaskComplement | src/ip.c:72-78 | the subnet mask is 2^32 - 2^(32-p), the complement of the host mask |
| Ip.AddrMasks | src/ip.c:72-86 | `& hostMask` keeps the low 32-p bits, `& subnetMask` clears them, `\| hostMask` sets them, all as arithmetic on the address |
| Ip.SubnetBounds | src/ip.c:80-86 | a subnet ends at its start plus the host mask |
| Ip.AlignedMultiple | src/ip.c:67-69 | the host bits are clear exactly when the address is a multiple of the subnet size |
| Ip.AlignedSize | src/ip.c:80-92 | for an aligned subnet, end - start + 1 is the size ip4SubnetSize counts |
| Ip.ClearedValue | src/ip.c:67-69 | clearing the host bits subtracts the low 32-p bits and gives an aligned subnet |
| Ip.AlignedLow | src/ip.c:67-69 | aligned exactly when the low 32-p bits are zero |
| Ip.GetSubnet | src/ip.c:41-70 | a string without '/' is no subnet; every subnet ip4GetSubnet accepts has a prefix of at most 32 and its host bits clear |
| Ip.GetSubnetRejects | src/ip.c:47-65 | no '/', an address that does not parse, or a prefix that is not a whole decimal in 0..32 gives no subnet |
| Ip.GetSubnetRoundTrip | src/ip.c:41-70 | parsing "address/prefix" gives back every aligned subnet |
| IpIter.CompareRanges | src/ip.c:114-126 | by start ascending, then by end descending; IpIter.CompareRangesOrder states the order it defines |
| IpIter.CompareRangesOrder | src/ip.c:114-126 | ignoreRangeCompare is a total order: zero only on equal ranges, antisymmetric, transitive, start ascending then end descending |
| IpIter.Ranges | src/ip.c:151-154 | one range per avoided subnet, from its start to its end |
| IpIter.SortedRangesProper | src/ip.c:151-155 | the sorted ranges are nonempty and, when no avoided subnet ends before the iterated one starts, none ends before it |
| IpIter.Iter.constructor | src/ip.c:137-161 | the iterator starts just before the subnet, with the sorted ranges and no range passed |
| IpIter.Iter.Next | src/ip.c:163-184 | the new address is larger and not covered by any range; every address skipped is covered; at the end it answers false and stays there |
| IpIter.Iter.Addr | src/ip.c:186-188 | the current address |
| IpIter.SkipCovered | src/ip.c:172-178 | jumping past the end of the current range skips only covered addresses |
| IpIter.NotAvoided | src/ip.c:170-181 | an address before the next range's start, and past all earlier ranges, is covered by no range |
| IpIter.FragIter.constructor | src/ip.c:224-231 | the fragment iterator starts at the subnet's address with the chosen small size and large-fragment count |
| IpIter.FragIter.Next | src/ip.c:234-247 | answers true exactly `total` times; the first call stays put; later calls advance by two small fragments while large ones remain, then by one |
| IpIter.FragIter.Subnet | src/ip.c:249-252 | the current fragment spans exactly the distance the next call advances |
| IpIter.AdvanceAddr | src/ip.c:238-244 | one step moves the fragment start to the offset of the next fragment, modulo 2^32 |
| Mac.MacValue | src/ip.c:269-274 | the six octets read as a big-endian 48-bit number |
| Mac.MacNextAddr | src/ip.c:269-274 | the address becomes its value plus one modulo 2^48, and the answer is false exactly when it wrapped to zero |
| Mac.ByteIncrement | src/ip.c:271 | `++` on a uint8_t: one more, or zero after 0xff |
| Mac.Increment | src/ip.c:270-273 | incrementing an octet below 0xff adds its weight to the value |
| Mac.Carry | src/ip.c:270-273 | wrapping an octet from 0xff to 0 carries into the octet before it |
| Mac.Wrap | src/ip.c:269-274 | the 48-bit increment, with and without the wrap |
| Mac.MacNextAddrs | src/ip.c:276-283 | buffer entry i holds the start address plus i, the address advances by `count`, and the answer is false exactly when the run passed the last address |
| Mac.NextInRun | src/ip.c:278-282 | one more increment continues the run and wraps exactly at 2^48 |
| NlWire.Align4 | src/common/lib/netlink.c:203-207 | RTA_ALIGN: the least multiple of 4 that is at least n |
| NlWire.LE16 | src/common/lib/netlink.c:201 | the two little-endian bytes of a 16-bit field |
| NlWire.LE32 | src/common/lib/netlink.c:216 | the four little-endian bytes of a 32-bit field |
| NlWire.LE16Inverse | src/common/lib/netlink.c:201 | encoding and decoding a 16-bit field are inverse, both ways |
| NlWire.ReadLE16At | src/common/lib/netlink.c:201 | a field holding the encoding of v reads back as v |
| NlWire.LE32Inverse | src/common/lib/netlink.c:216 | encoding and decoding a 32-bit field are inverse, both ways |
| NlWire.HeaderTail | src/common/lib/netlink.c:155-158 | request header bytes 4..16: the type, the flags, the sequence number and the port id |
| NlWire.HeaderSeqNo | src/common/lib/netlink.c:157 | the sequence number stamped into the header reads back unchanged |
| NlWire.FixedSlots | src/common/lib/netlink.c:167-170 | bytes copied into the message are fixed slots |
| NlWire.AnySlots | src/common/lib/netlink.c:203-207 | padding bytes are unconstrained slots |
| NlWire.ItemsPatternAppend | src/common/lib/netlink.c:167-209 | the layout of pieces built one after another is the concatenation of their layouts |
| NlWire.NestAligned | src/common/lib/netlink.c:203-207 | every attribute occupies a multiple of 4 bytes |
| NlWire.NestRoundTrip | src/common/lib/netlink.c:198-207 | an encoded attribute reads back as its type, its unpadded length (truncated to 16 bits) and its payload |
| NlWire.NestHeader | src/common/lib/netlink.c:181-201 | the header of an encoded attribute is rta_len and then rta_type |
| NlWire.NestPayload | src/common/lib/netlink.c:186-200 | the payload follows the 4-byte header |
| NlWire.OpenHeader | src/common/lib/netlink.c:178-186 | an open attribute's header: two unwritten length bytes, then the type |
| NlWire.MatchesConcat | src/common/lib/netlink.c:167-209 | bytes matching adjacent layouts match their concatenation |
| NlWire.ItemsPatternSingle | src/common/lib/netlink.c:167-209 | one piece is laid out as its own layout |
| NlWire.BodyAppendItem | src/common/lib/netlink.c:167-170 | appending a piece to the innermost open level extends the staged body by its layout |
| NlWire.PopLevel | src/common/lib/netlink.c:191-209 | closing the innermost attribute makes it the last piece of the enclosing level |
| NlWire.BodyPush | src/common/lib/netlink.c:172-189 | opening an attribute extends the staged body by an open header |
| NlWire.BodyClose | src/common/lib/netlink.c:191-209 | the open header and its contents become one finished attribute in the enclosing level |
| NlWire.MatchesOpen | src/common/lib/netlink.c:178-186 | after a push the old bytes are kept, two length bytes are left unwritten, then comes the type |
| NlWire.MatchesSplit | src/common/lib/netlink.c:167-209 | bytes matching a concatenation split into bytes matching the parts |
| NlWire.MatchesFixed | src/common/lib/netlink.c:167-170 | fixed slots determine the bytes completely |
| NlWire.MatchesAny | src/common/lib/netlink.c:203-207 | unwritten slots accept any bytes |
| NlWire.MatchesClose | src/common/lib/netlink.c:197-207 | after a pop the bytes before the attribute are untouched, its length is written, its type and contents are untouched, and the padding is free |
| NlWire.MatchesSent | src/common/lib/netlink.c:216 | the bytes sent are the staged request with the total length written into the header |
| NlWire.TransmittedIff | src/common/lib/netlink.c:220-228 | the request goes out exactly when some sendmsg succeeds after only EAGAIN/EINTR failures; any other failure ends with its errno |
| NlWire.SendRetry | src/common/lib/netlink.c:220-228 | the send loop's outcome is that of the retry rule, attempt by attempt |
| NlWire.RecvRetried | src/common/lib/netlink.c:247-255 | a failed read is retried exactly on EINTR, since `res` (-1) never equals ENOBUFS or EAGAIN |
| NlWire.PrependConcat | src/common/lib/netlink.c:244-302 | messages delivered by successive datagrams accumulate in order |
| NlWire.AcceptedPrepend | src/common/lib/netlink.c:297-300 | messages all accepted before the rest of an exchange keep "accepted until the last" |
| NlBuild.Positions | src/common/lib/netlink.c:183 | each open attribute's recorded position is where its header starts |
| NlBuild.PositionsOuter | src/common/lib/netlink.c:183-184 | open positions depend only on the levels enclosing the innermost one |
| NlBuild.HeaderWellformed | src/common/lib/netlink.c:141-165 | a fresh request holds exactly its header |
| NlBuild.AppendWellformed | src/common/lib/netlink.c:167-170 | appending bytes keeps the request well formed, the bytes added to the innermost level |
| NlBuild.PushWellformed | src/common/lib/netlink.c:172-189 | opening an attribute keeps the request well formed and records where its header starts |
| NlBuild.PopPosition | src/common/lib/netlink.c:197-200 | the innermost open attribute starts at its recorded position and its header is complete |
| NlBuild.PopWellformed | src/common/lib/netlink.c:191-209 | closing the innermost attribute keeps the request well formed with one level fewer |
| NlBuild.PopStaged | src/common/lib/netlink.c:197-207 | the bytes after a pop match the staged request with that attribute closed |
| NlBuild.SentSeqNo | src/common/lib/netlink.c:233 | the sequence number the response loop waits for is the one in the header sent |
| NetlinkNew.MsgBuffer.constructor | src/common/lib/netlink.c:55-57 | nlInit: an empty buffer without a block |
| NetlinkNew.MsgBuffer.Cleanup | src/common/lib/netlink.c:59-61 | nlCleanup releases the block and empties the buffer |
| NetlinkNew.MsgBuffer.Reserve | src/common/lib/netlink.c:124-126 | nlReserveSpace: the capacity grows to twice the requested size when it does not fit, keeping every byte |
| NetlinkNew.MsgBuffer.Commit | src/common/lib/netlink.c:128-130 | nlCommitSpace: reserved bytes join the message |
| NetlinkNew.MsgBuffer.Reset | src/common/lib/netlink.c:132-135 | nlResetSpace: the length becomes 0 and room for the initial capacity is reserved |
| NetlinkNew.MsgBuffer.Extend | src/common/lib/netlink.c:167-170 | after a gap of untouched bytes the given bytes are stored, and both are committed |
| NetlinkNew.MsgBuffer.CloseAttr | src/common/lib/netlink.c:197-207 | rta_len gets header plus payload truncated to 16 bits, and the message is padded to a multiple of 4 from the attribute's start |
| NetlinkNew.MsgBuffer.Put | src/common/lib/netlink.c:155-158 | bytes stored at an offset, the rest of the block unchanged |
| NetlinkNew.Context.constructor | src/common/lib/netlink.c:63-72 | the allocated context before nlNewContextInPlace fills it in |
| NetlinkNew.Context.OpenInPlace | src/common/lib/netlink.c:74-106 | on success the port id is the one the kernel assigned and the sequence counter starts at 0; on failure the errno is returned |
| NetlinkNew.Context.InitMessage | src/common/lib/netlink.c:141-165 | the buffer holds one header with the type, the flags plus NLM_F_REQUEST, the next sequence number and the port id; the counter advances modulo 2^32 |
| NetlinkNew.Context.BufferAppend | src/common/lib/netlink.c:167-170 | the bytes join the innermost open attribute at the end of the message |
| NetlinkNew.Context.PushAttr | src/common/lib/netlink.c:172-189 | below MAX_ATTR_NEST an attribute of the type opens at the end of the message; at the limit the call returns -1 and changes nothing |
| NetlinkNew.Context.PopAttr | src/common/lib/netlink.c:191-209 | the innermost attribute is closed into its enclosing level; with none open the call returns -1 and changes nothing |
| NetlinkNew.Context.CloseInnermost | src/common/lib/netlink.c:197-207 | the work of a pop once an attribute is open |
| NetlinkNew.Context.SendMessage | src/common/lib/netlink.c:211-305 | with an attribute open the call returns -1; otherwise the bytes sent are the staged request with its length, and the result is the send and receive outcome for its sequence number |
| NetlinkNew.NewContextAsWritten | src/common/lib/netlink.c:63-72 | the success branch hands back no context (`return 0`) |
| NetlinkNew.NewContext | src/common/lib/netlink.c:63-72 | as intended: the opened context on success, or NULL and the error code |
| NetlinkNewReceive.SendOutcome | src/common/lib/netlink.c:220-236 | the send error, 0 without a wait, or the response loop for the stamped sequence number |
| NetlinkNewReceive.ProcessDatagram | src/common/lib/netlink.c:265-300 | the walk over one datagram; its meaning is stated by the Datagram lemmas below |
| NetlinkNewReceive.Receive | src/common/lib/netlink.c:244-302 | the exchange over the events read; its meaning is stated by the Receive lemmas below |
| NetlinkNewReceive.DeliverAllConcat | src/common/lib/netlink.c:244-302 | delivering two runs of messages is delivering their concatenation |
| NetlinkNewReceive.ProcessMessages | src/common/lib/netlink.c:265-301 | the message loop over one datagram computes the datagram walk: skips, kernel errors, the multi-part and DONE flags, and handler rejections |
| NetlinkNewReceive.ReceiveResponses | src/common/lib/netlink.c:244-302 | the response loop computes the exchange: EINTR retries, -1 on a closed socket or a bad address size, the datagram walk until a final message |
| NetlinkNewReceive.DatagramContents | src/common/lib/netlink.c:265-300 | within a datagram the handler sees only messages of the response, never a kernel error |
| NetlinkNewReceive.DatagramAcceptance | src/common/lib/netlink.c:297-300 | the handler accepted all it saw but possibly the last, and a rejection is the value returned |
| NetlinkNewReceive.DatagramAbortCause | src/common/lib/netlink.c:275-300 | an early end returns non-zero: the handler's rejection, or the negated code of a kernel error in the datagram |
| NetlinkNewReceive.ReceiveContents | src/common/lib/netlink.c:244-302 | over the exchange the handler sees only non-error messages of the response, from datagrams read |
| NetlinkNewReceive.ReceiveAcceptance | src/common/lib/netlink.c:244-302 | over the exchange the handler accepted all it saw but possibly the last, whose rejection is returned |
| NetlinkNewReceive.KeepStaysFalse | src/common/lib/netlink.c:286-296 | once reading is stopped, the rest of the datagram does not restart it |
| NetlinkNewReceive.FinalMessageStops | src/common/lib/netlink.c:286-296 | a response message without NLM_F_MULTI, or a DONE of a multi-part response, stops reading after its datagram |
| NetlinkNewReceive.FinalDatagramEndsExchange | src/common/lib/netlink.c:244 | after a datagram with a final message nothing more is read |
| NetlinkNewReceive.IgnoredDatagram | src/common/lib/netlink.c:266-271 | a datagram with no message of the response leaves the walk unchanged |
| NetlinkNewReceive.IgnoredTrafficWaits | src/common/lib/netlink.c:244-271 | interrupted reads, NOOPs and other requests' traffic never end the exchange, and the handler sees none of them |
| NetlinkNewReceive.KernelErrorAborts | src/common/lib/netlink.c:275-283 | a kernel error as the first response message ends the exchange with its negated code, before the handler sees anything |
| NetlinkNewReceive.AckReachesHandler | src/common/lib/netlink.c:275-300 | an acknowledgement (error code 0) is handed to the handler, and a single-part one ends the exchange with the handler's result |
| NetlinkNewReceive.Deliverable | src/common/lib/netlink.c:265-300 | the messages meant for the handler: every relevant message up to the first kernel error, except NLMSG_DONE of a multi-part response |
| NetlinkNewReceive.EndsReading | src/common/lib/netlink.c:275-296 | a datagram ends the reading when it holds a relevant kernel error or final message |
| NetlinkNewReceive.DatagramDelivery | src/common/lib/netlink.c:265-300 | every deliverable message of a datagram reaches the handler in order: all of them when the walk reads to the end, with the multi-part state later messages need; otherwise a prefix ending in a rejection |
| NetlinkNewReceive.DatagramKeepsReading | src/common/lib/netlink.c:286-296 | a walk that reads to the end of a datagram keeps reading exactly when no final message came |
| NetlinkNewReceive.Walked | src/common/lib/netlink.c:244-264 | the messages of the datagrams read, up to the first unretried failure, closed socket, wrong address size or datagram that ends the reading |
| NetlinkNewReceive.ReceiveDelivery | src/common/lib/netlink.c:244-302 | over the exchange the handler gets every deliverable message of the datagrams read, in order, unless it rejected the last one it saw |
| NetlinkOld.MsgBuffer.constructor | src/netlink.c:24-31 | the static buffer starts NULL, with no capacity and no bytes (nlInit does nothing) |
| NetlinkOld.MsgBuffer.Reserve | src/netlink.c:93-105 | the block is reallocated to twice the requested size when it does not fit, keeping every byte |
| NetlinkOld.MsgBuffer.Commit | src/netlink.c:107-109 | reserved bytes join the message |
| NetlinkOld.MsgBuffer.Reset | src/netlink.c:111-114 | the length becomes 0 and room for the initial capacity is reserved |
| NetlinkOld.MsgBuffer.Extend | src/netlink.c:146-150 | after a gap of untouched bytes the given bytes are stored, and both are committed |
| NetlinkOld.MsgBuffer.CloseAttr | src/netlink.c:177-187 | rta_len gets header plus payload truncated to 16 bits, and the message is padded to a multiple of 4 |
| NetlinkOld.MsgBuffer.Put | src/netlink.c:134-137 | bytes stored at an offset, the rest of the block unchanged |
| NetlinkOld.Context.constructor | src/netlink.c:37-46 | the allocated context before nlNewContextInPlace fills it in |
| NetlinkOld.Context.OpenInPlace | src/netlink.c:48-80 | on success the kernel's port id and a sequence counter at 0; on failure the errno |
| NetlinkOld.Context.InitMessage | src/netlink.c:120-144 | one header with the type, the flags plus NLM_F_REQUEST, the next sequence number and the port id; the counter advances modulo 2^32 |
| NetlinkOld.Context.BufferAppend | src/netlink.c:146-150 | the bytes join the innermost open attribute |
| NetlinkOld.Context.PushAttr | src/netlink.c:152-169 | an attribute opens below MAX_ATTR_NEST; at the limit -1 and no change |
| NetlinkOld.Context.PopAttr | src/netlink.c:171-189 | the innermost attribute is closed; with none open -1 and no change |
| NetlinkOld.Context.CloseInnermost | src/netlink.c:177-187 | the work of a pop once an attribute is open |
| NetlinkOld.Context.SendMessage | src/netlink.c:191-268 | with an attribute open -1; otherwise the staged request with its length is sent, and the result is the send and receive outcome |
| NetlinkOld.NewContextAsWritten | src/netlink.c:37-46 | the success branch hands back no context (`return 0`) |
| NetlinkOld.NewContext | src/netlink.c:37-46 | as intended: the opened context on success, or NULL and the error code |
| NetlinkOldReceive.SendOutcome | src/netlink.c:200-216 | the send error, 0 without a wait, or the response loop for the stamped sequence number |
| NetlinkOldReceive.ProcessDatagram | src/netlink.c:244-264 | the walk over one datagram; its meaning is stated by the Datagram lemmas below |
| NetlinkOldReceive.Receive | src/netlink.c:223-265 | the exchange over the events read; its meaning is stated by the Receive lemmas below |
| NetlinkOldReceive.DeliverAllConcat | src/netlink.c:223-265 | delivering two runs of messages is delivering their concatenation |
| NetlinkOldReceive.ProcessMessages | src/netlink.c:244-264 | the `for` loop over one datagram computes the datagram walk: DONE, skips, the found flag, kernel errors, handler rejections |
| NetlinkOldReceive.ReceiveResponses | src/netlink.c:223-265 | the response loop computes the exchange: EINTR retries, -1 on a closed socket or a bad address size, datagrams until one sets the found flag |
| NetlinkOldReceive.StopsAtDone | src/netlink.c:245 | the walk over a datagram ends at its first NLMSG_DONE, whatever its sequence number |
| NetlinkOldReceive.DatagramContents | src/netlink.c:245-263 | the handler sees only messages with the request's sequence number that are neither DONE nor a kernel error |
| NetlinkOldReceive.MatchSetsFound | src/netlink.c:246-251 | a message of the request before any DONE sets the found flag |
| NetlinkOldReceive.FoundStays | src/netlink.c:251 | once set, the found flag stays set |
| NetlinkOldReceive.MatchEndsWait | src/netlink.c:223-251 | the first datagram with a message of the request ends the wait, even with NLM_F_MULTI set |
| NetlinkOldReceive.FirstMatchHandled | src/netlink.c:251-263 | a request message at the head of a datagram (NOOPs and acknowledgements included) is handed to the handler; a kernel error ends with its negation instead |
| NetlinkOldReceive.DatagramAcceptance | src/netlink.c:260-263 | the handler accepted all it saw but possibly the last, whose rejection is returned |
| NetlinkOldReceive.DatagramAbortCause | src/netlink.c:252-263 | an early end returns non-zero: a rejection, or the negated code of a kernel error of the request |
| NetlinkOldReceive.ReceiveContents | src/netlink.c:223-265 | over the exchange the handler sees only request messages, never DONE or a kernel error |
| NetlinkOldReceive.IgnoredDatagram | src/netlink.c:245-250 | a datagram without a request message before its first DONE leaves the walk unchanged |
| NetlinkOldReceive.IgnoredTrafficWaits | src/netlink.c:223-250 | interrupted reads and other requests' traffic never end the exchange, and the handler sees none of them |
| NetlinkOldReceive.Deliverable | src/netlink.c:244-264 | the messages meant for the handler: those of the request up to the first NLMSG_DONE or kernel error |
| NetlinkOldReceive.Answered | src/netlink.c:245-251 | a message of the request comes before the first NLMSG_DONE |
| NetlinkOldReceive.DatagramDelivery | src/netlink.c:244-264 | every deliverable message of a datagram reaches the handler in order, or a prefix ending in a rejection; the found flag is set exactly when the datagram answered |
| NetlinkOldReceive.DeliverableRead | src/netlink.c:223-265 | the deliverable messages of each datagram read, up to the first unretried failure, closed socket, wrong address size or answering datagram |
| NetlinkOldReceive.ReceiveDelivery | src/netlink.c:223-265 | over the exchange the handler gets every deliverable message of the datagrams read, in order, unless it rejected the last one it saw |
| NetMessages.IntBytes | src/net.c:266 | a C `int` in memory: four bytes, two's complement, little-endian |
| NetMessages.CStringBytes | src/net.c:262 | strlen + 1 bytes: the characters and the NUL |
| NetMessages.IfInfoMsg | src/net.c:258 | the 16-byte ifinfomsg, all zero except ifi_change = ~0 |
| NetMessages.IfAddrMsg | src/net.c:328 | the 8-byte ifaddrmsg carrying the prefix length and the interface index |
| NetMessages.RtMsg | src/net.c:443-449 | the 12-byte rtmsg carrying the destination length and the main table |
| NetMessages.WithAck | src/net.c:256 | NLM_F_ACK is set exactly when `sync` holds; the other flags are the base flags |
| NetMessages.RequestFlags | src/net.c:256-441 | the veth and route requests are create-exclusive, the address request create-or-replace, and the address deletion carries no creation flag |
| NetMessages.VethShape | src/net.c:261-284 | the veth request opens eight attributes, at most four at once, below MAX_ATTR_NEST |
| NetMessages.LeafSize | src/net.c:262 | a run of bytes opens no attribute |
| NetMessages.Cons | src/net.c:261-284 | how a leading piece adds to the attribute count and depth |
| NetMessages.AddrAttrsPresent | src/net.c:331-348 | IFA_LOCAL and IFA_ADDRESS appear exactly for a non-zero address, IFA_BROADCAST and IFA_ANYCAST exactly for non-zero arguments, in that order |
| NetMessages.AttrTypesConcat | src/net.c:331-348 | attribute types of consecutive pieces concatenate |
| NetMessages.AddrPayloadsAsWritten | src/net.c:331-348 | as written, every address attribute carries the address itself |
| NetMessages.BroadcastCarriesAddress | src/net.c:339-343 | the request for 10.0.0.1 with broadcast 10.0.0.255 announces 10.0.0.1 as the broadcast address |
| NetMessages.IntendedAddrPayloads | src/net.c:339-348 | corrected: IFA_BROADCAST and IFA_ANYCAST carry their own addresses |
| NetMessages.RouteAttrsPresent | src/net.c:452-464 | RTA_DST, then RTA_GATEWAY exactly when a gateway is given, then RTA_OIF |
| NetMessages.ClampPrefix | src/net.c:323 | the prefix length is at most 32, and unchanged when it already is |
| NetMessages.Extended | src/net.c:259-284 | adding pieces changes only the innermost level, appending them |
| NetMessages.NestDepthElement | src/net.c:261-284 | a piece is no deeper than the tree holding it |
| NetMessages.EmitItems | src/net.c:259-284 | the sequence of append, push and pop calls adds exactly the tree of pieces to the innermost level, leaving the header and counter alone |
| NetMessages.EmitItem | src/net.c:259-284 | one piece's calls add exactly that piece |
| NetMessages.EmitNest | src/net.c:261-263 | push, contents, pop add exactly one attribute |
| NetMessages.OpenClose | src/net.c:261-263 | pushing, filling and popping adds the attribute to the level that was innermost |
| NetMessages.ExtendedTwice | src/net.c:259-284 | extending twice is extending once by both |
| NetMessages.Request | src/net.c:256-286 | what is sent is the header (type, flags, stamped sequence number, port id) and the body; the result is the send and receive outcome; the counter advances |
| NetMessages.CreateVethPair | src/net.c:249-287 | the RTM_NEWLINK request with the veth body, create-exclusive, waiting exactly when `sync` |
| NetMessages.AddInterfaceAddrIPv4 | src/net.c:319-351 | the RTM_NEWADDR request with the clamped prefix and the attributes as written, create-or-replace |
| NetMessages.DelInterfaceAddrIPv4 | src/net.c:353-361 | the RTM_DELADDR request with a zero prefix; it always waits for the kernel |
| NetMessages.AddRoute | src/net.c:439-467 | the RTM_NEWROUTE request for a static unicast route with RTA_DST, the optional RTA_GATEWAY and RTA_OIF |
| NetMessages.RawDepth | src/net.c:353-361 | a body of bytes only opens no attribute |
| NetMessages.FlatDepth | src/net.c:319-351 | address and route bodies open one attribute at a time |
| NetMessages.NamespacePath | src/net.c:112 | the namespace directory, '/', the process-wide prefix and the name, as the format string joins them |
| NetMessages.GetNamespacePath | src/net.c:112-117 | the buffer holds the path truncated to PATH_MAX; the result is 0 exactly when it fits and -1 otherwise |
| RouteCells.ImprovedTrans | src/netmirage-core/routeplanner.c:264-268 | improvement of a cell accumulates over steps |
| RouteCells.Relaxed | src/netmirage-core/routeplanner.c:264-268 | the detour through k replaces the cell exactly when strictly lighter, taking the first hop towards k |
| RouteCells.RelaxAt | src/netmirage-core/routeplanner.c:264-268 | one relaxation changes only its target cell |
| RouteCells.NestRelaxed | src/netmirage-core/routeplanner.c:258-277 | the table after a prefix of the k-i-j loop nest over a tile |
| RouteCells.TileRelaxed | src/netmirage-core/routeplanner.c:258-277 | Floyd-Warshall over one tile |
| RouteCells.EvolvedTrans | src/netmirage-core/routeplanner.c:264-268 | confined relaxations compose |
| RouteCells.LighterTrans | src/netmirage-core/routeplanner.c:264-268 | "never heavier" composes |
| RouteCells.EvolvedLighter | src/netmirage-core/routeplanner.c:264-268 | confined relaxations never make a cell heavier |
| RouteCells.EvolvedWiden | src/netmirage-core/routeplanner.c:264-268 | relaxations confined to a range are confined to any range around it |
| RouteCells.RelaxAtEvolves | src/netmirage-core/routeplanner.c:264-268 | one relaxation changes only its cell, never raises it, and copies a next hop from the table |
| RouteCells.NestEvolves | src/netmirage-core/routeplanner.c:258-277 | every prefix of the loop nest changes only the tile's cells and keeps next hops in the table |
| RouteCells.StepEvolves | src/netmirage-core/routeplanner.c:264-268 | one more relaxation inside the region keeps the table evolved |
| RouteCells.TileEvolves | src/netmirage-core/routeplanner.c:258-277 | Floyd-Warshall over a tile changes only the tile, never raises a weight, and keeps next hops in the table |
| RouteCells.RelaxCell | src/routeplanner.c:69-76 | the body of the innermost loop computes one relaxation |
| RoutePlanner.RoundedNodeCountAsWritten | src/netmirage-core/routeplanner.c:170-171 | as written: `nodeCount + BlockSize - 1` in 32 bits, divided and multiplied by 16 |
| RoutePlanner.RoundedNodeCount | src/netmirage-core/routeplanner.c:170-171 | corrected: the node count rounded up to whole blocks of 16; its bounds are RoutePlanner.RoundedNodeCountBounds |
| RoutePlanner.RoundingWraps | src/netmirage-core/routeplanner.c:170-171 | as written, 2^32 - 1 nodes round to a planner for 0 nodes |
| RoutePlanner.RoundedNodeCountBounds | src/netmirage-core/routeplanner.c:170-171 | corrected: the rounded count is a multiple of 16, at least n and below n + 16 |
| RoutePlanner.WideTableOverflows | src/netmirage-core/routeplanner.c:177-178 | a table of 2^16 or more nodes per side has at least 2^32 cells, which emul32 refuses |
| RoutePlanner.RoundingAgrees | src/netmirage-core/routeplanner.c:170-178 | the 32-bit rounding agrees with the exact one for every table emul32 accepts |
| RoutePlanner.EdgeIndex | src/netmirage-core/routeplanner.c:145-153 | rpEdgePtr: block row, block within it, row and column within the block; RoutePlanner.EdgeIndexInverse states it is a bijection onto the table |
| RoutePlanner.EdgeIndexForm | src/netmirage-core/routeplanner.c:145-153 | a cell's position is its block number times 256 plus its row and column in the block |
| RoutePlanner.BlockNumber | src/netmirage-core/routeplanner.c:146-151 | a block number splits back into block row and block column |
| RoutePlanner.InBlock | src/netmirage-core/routeplanner.c:148-151 | a position in a block splits back into row and column |
| RoutePlanner.EdgeIndexInverse | src/netmirage-core/routeplanner.c:145-153 | distinct pairs have distinct positions inside the table, and row and column are recovered |
| RoutePlanner.TableSize | src/netmirage-core/routeplanner.c:177-179 | block numbers below blocks^2 cover exactly the n^2 positions |
| RoutePlanner.ColOfBound | src/netmirage-core/routeplanner.c:191 | every position's column is a node of the table |
| RoutePlanner.CellPosition | src/netmirage-core/routeplanner.c:184-197 | the fill loops reach cell (16 br + row, 16 bc + col) at its rpEdgePtr position |
| RoutePlanner.BlankPosition | src/netmirage-core/routeplanner.c:184-197 | the cell the loops reach lies in the table, in column 16 bc + col |
| RoutePlanner.BlankRow | src/netmirage-core/routeplanner.c:189-193 | the 16 cells of a block row get no path and their column as next hop |
| RoutePlanner.BlankBlock | src/netmirage-core/routeplanner.c:188-194 | the 16 rows of a block are blank |
| RoutePlanner.BlankTable | src/netmirage-core/routeplanner.c:184-197 | every cell gets no path and its own column as next hop |
| RoutePlanner.Planner.Cell | src/netmirage-core/routeplanner.c:145-153 | the cell for a pair, read at its rpEdgePtr position |
| RoutePlanner.Planner.constructor | src/netmirage-core/routeplanner.c:155-203 | the count rounded to whole blocks; every pair without a path and with its destination as next hop |
| RoutePlanner.Planner.SetWeight | src/netmirage-core/routeplanner.c:213-216 | one cell's weight changes and nothing else |
| RoutePlanner.Planner.PlanRoutes | src/netmirage-core/routeplanner.c:387-477 | a pool failure returns its code and changes nothing; otherwise the table is the blocked Floyd-Warshall of the old one, no weight rises and next hops stay in the table |
| RoutePlanner.Planner.Hop | src/netmirage-core/routeplanner.c:242 | the next hop from a node towards a destination is a node of the table |
| RoutePlanner.Planner.Walk | src/netmirage-core/routeplanner.c:240-244 | where some number of hops towards the destination lead |
| RoutePlanner.Planner.WalkExtend | src/netmirage-core/routeplanner.c:241-243 | one more hop extends a walk at its end |
| RoutePlanner.Planner.WalkPrefixExtend | src/netmirage-core/routeplanner.c:241-243 | a walk that has not met the destination continues with the next hop |
| RoutePlanner.Planner.GetRoute | src/netmirage-core/routeplanner.c:223-254 | no route for infinite weight; otherwise the path from start to end along next hops, refused when longer than MAX_NODE_ID |
| RouteChunks.BlockRow | src/netmirage-core/routeplanner.c:263-272 | row i of round k of a block, as the loop nest's walk |
| RouteChunks.BlockRound | src/netmirage-core/routeplanner.c:261-276 | round k of a block, row by row |
| RouteChunks.ProcessBlock | src/netmirage-core/routeplanner.c:257-278 | the table becomes Floyd-Warshall of the block through its (i,k) and (k,j) blocks |
| RouteChunks.BlocksRelaxed | src/netmirage-core/routeplanner.c:289-299 | the table after n blocks of the row-by-row walk |
| RouteChunks.ChunkRelaxed | src/netmirage-core/routeplanner.c:287-300 | the table after every block of the chunk |
| RouteChunks.BlocksImprove | src/netmirage-core/routeplanner.c:287-300 | processing blocks never raises a weight and keeps next hops in the table |
| RouteChunks.BlocksSplit | src/netmirage-core/routeplanner.c:315-328 | a + b blocks are a blocks, then the b that follow |
| RouteChunks.BlocksFirst | src/netmirage-core/routeplanner.c:292-296 | a walk is its first block and then the rest |
| RouteChunks.ColumnResumes | src/netmirage-core/routeplanner.c:292-296 | after one block of a chunk row the walk resumes at the next column |
| RouteChunks.BlocksResume | src/netmirage-core/routeplanner.c:315-328 | part of the walk, once processed, leaves the walk from where it ended |
| RouteChunks.NthAlongRow | src/netmirage-core/routeplanner.c:320-327 | within a row the walk moves one column per step, then to the start of the next row |
| RouteChunks.NthRows | src/netmirage-core/routeplanner.c:289-299 | whole rows of the walk end at the start of a row |
| RouteChunks.NthPos | src/netmirage-core/routeplanner.c:307-308 | after q rows and r steps the walk is at (q, r) |
| RouteChunks.RowOfBlocks | src/netmirage-core/routeplanner.c:289-299 | the blocks from a row's start are that row's, then the next rows' |
| RouteChunks.RowResumes | src/netmirage-core/routeplanner.c:289-299 | after one chunk row the walk resumes at the next row |
| RouteChunks.ChunkRow | src/netmirage-core/routeplanner.c:290-296 | the blocks of one chunk row, column by column |
| RouteChunks.ProcessChunkLocal | src/netmirage-core/routeplanner.c:287-300 | the table becomes ChunkRelaxed of the old one |
| RouteChunks.UnitCount | src/netmirage-core/routeplanner.c:315-327 | a unit that has done some blocks and reached a cell still has that block to do |
| RouteChunks.UnitStart | src/netmirage-core/routeplanner.c:307-314 | the starting pointers aim at cell (startIndex / cols, startIndex % cols) |
| RouteChunks.UnitStep | src/netmirage-core/routeplanner.c:316-327 | one block, then the pointers move to the next cell, wrapping to the next row |
| RouteChunks.ProcessPartialChunk | src/netmirage-core/routeplanner.c:306-329 | the walk's blocks from startIndex on, ThreadWorkSize of them or up to the chunk's end |
| RouteChunks.UnitsAdvance | src/netmirage-core/routeplanner.c:367-380 | unit u starts inside the chunk where the units before it end |
| RouteChunks.UnitResumes | src/netmirage-core/routeplanner.c:333-342 | after unit u the walk resumes where the first u + 1 units end |
| RouteChunks.UnitsCover | src/netmirage-core/routeplanner.c:367 | the units together cover the chunk, the last one starting inside it |
| RouteChunks.QueueUnits | src/netmirage-core/routeplanner.c:374-380 | unit u starts at block number u * ThreadWorkSize |
| RouteChunks.RunUnits | src/netmirage-core/routeplanner.c:333-383 | running the queued units in order processes the whole chunk |
| RouteChunks.ProcessChunkThreaded | src/netmirage-core/routeplanner.c:345-385 | the table becomes ChunkRelaxed of the old one, for a small chunk and for one cut into units alike |
| RouteChunks.ProcessRange | src/netmirage-core/routeplanner.c:392-397 | either chunk function leaves the same table |
| RouteSchedule.RegionIndex | src/netmirage-core/routeplanner.c:446-462 | which of the nine chunks of a round a block belongs to |
| RouteSchedule.RoundPartition | src/netmirage-core/routeplanner.c:446-462 | each round processes every block exactly once |
| RouteSchedule.PhaseRegionInside | src/netmirage-core/routeplanner.c:446-462 | every chunk of a round lies inside the table |
| RouteSchedule.PhaseBlock | src/netmirage-core/routeplanner.c:446-462 | cell p of a region's chunk is the region's block, relaxed through block column and row `round` |
| RouteSchedule.BlockStartInside | src/netmirage-core/routeplanner.c:415-418 | every block of the table lies inside it |
| RouteSchedule.ScaledRows | src/netmirage-core/routeplanner.c:418-421 | br rows of 16 n cells hold br b blocks |
| RouteSchedule.BlockNumberBound | src/netmirage-core/routeplanner.c:415 | a block number of a b x b grid is below b b |
| RouteSchedule.PhaseInside | src/netmirage-core/routeplanner.c:446-462 | a region's chunk has all its blocks inside the table |
| RouteSchedule.PhasesRelaxed | src/netmirage-core/routeplanner.c:446-462 | the table after the first i chunks of a round |
| RouteSchedule.RoundRelaxed | src/netmirage-core/routeplanner.c:446-462 | one round: the nine chunks in order |
| RouteSchedule.RoundsRelaxed | src/netmirage-core/routeplanner.c:439-469 | the first rounds in order |
| RouteSchedule.PlanRelaxed | src/netmirage-core/routeplanner.c:439-469 | one round per block row |
| RouteSchedule.PhasesImprove | src/netmirage-core/routeplanner.c:446-462 | chunks never raise a weight and keep next hops in the table |
| RouteSchedule.RoundsImprove | src/netmirage-core/routeplanner.c:439-469 | rounds never raise a weight and keep next hops in the table |
| RouteSchedule.PlanImproves | src/netmirage-core/routeplanner.c:439-469 | planning never raises a weight, changes cells only to strictly lighter detours, and keeps next hops in the table |
| RouteSchedule.ProcessPhase | src/netmirage-core/routeplanner.c:447-462 | processRange call i leaves the table after i + 1 chunks |
| RouteSchedule.RoundChunks | src/netmirage-core/routeplanner.c:440-467 | the offsets kept by the loop give exactly the nine regions' chunks |
| RouteSchedule.ProcessRound | src/netmirage-core/routeplanner.c:440-468 | the nine calls leave RoundRelaxed of the old table |
| RouteSchedule.PlanRounds | src/netmirage-core/routeplanner.c:415-469 | the round loop leaves PlanRelaxed of the old table |
| RouteFinder.EdgeIndexAsWritten | src/routeplanner.c:28-30 | as written: `from * nodeCount + to` in 32-bit nodeId arithmetic |
| RouteFinder.EdgeIndex | src/routeplanner.c:28-30 | corrected: the row-major index in size_t arithmetic; RouteFinder.EdgeIndexDistinct states it is injective into the table |
| RouteFinder.EdgeIndexCollision | src/routeplanner.c:28-30 | as written, with 65537 nodes, cells (65536, 0) and (0, 65536) share a slot |
| RouteFinder.EdgeIndexDistinct | src/routeplanner.c:28-30 | corrected: distinct pairs have distinct slots inside the n x n table |
| RouteFinder.EdgeIndexAgrees | src/routeplanner.c:28-39 | both indices agree while the table fits in 2^32 cells |
| RouteFinder.Finder.Cell | src/routeplanner.c:28-30 | the cell of a pair at its row-major slot |
| RouteFinder.Finder.constructor | src/routeplanner.c:33-53 | every pair without a path and with its destination as next hop |
| RouteFinder.Finder.BlankTable | src/routeplanner.c:42-48 | the fill loops blank every cell, next hop its column |
| RouteFinder.Finder.SetWeight | src/routeplanner.c:61-63 | one cell's weight changes and nothing else |
| RouteFinder.Finder.Relax | src/routeplanner.c:69-76 | the detour i -> k -> j against cell (i, j) |
| RouteFinder.Finder.PlanRoutes | src/routeplanner.c:65-80 | the table becomes Floyd-Warshall of the old one in k-i-j order; no weight rises; next hops stay in the table |
| RouteFinder.Finder.RelaxRound | src/routeplanner.c:67-78 | round k over every row |
| RouteFinder.Finder.RelaxRow | src/routeplanner.c:68-77 | row i of round k |
| RouteFinder.Finder.Hop | src/routeplanner.c:97 | the next hop is a node of the table |
| RouteFinder.Finder.Walk | src/routeplanner.c:96-99 | where some number of hops lead |
| RouteFinder.Finder.WalkExtend | src/routeplanner.c:96-99 | one more hop extends a walk at its end |
| RouteFinder.Finder.WalkPrefixExtend | src/routeplanner.c:96-99 | a walk that has not met the destination continues with the next hop |
| RouteFinder.Finder.GetRoute | src/routeplanner.c:87-105 | no route for infinite weight; otherwise the path along next hops, refused above MAX_NODE_ID |
| OvsText.HexDigit | src/netmirage-core/ovs.c:417-423 | the lower-case hex digit of a nibble |
| OvsText.HexValue | src/netmirage-core/ovs.c:417-423 | the value of a lower-case hex digit, inverse of HexDigit |
| OvsText.Hex2 | src/netmirage-core/ovs.c:423 | `%02x`: two digits, high nibble first |
| OvsText.HexOf | src/netmirage-core/ovs.c:421-425 | the renderings of the octets one after another |
| OvsText.ParseHex | src/netmirage-core/ovs.c:452-455 | reading a hex string back, two digits per octet |
| OvsText.ParseHexOf | src/netmirage-core/ovs.c:421-425 | rendering then reading gives the octets back |
| OvsText.HexOfOctet | src/netmirage-core/ovs.c:421-425 | digits 2k and 2k+1 read back as octet k |
| OvsText.IpBytes | src/netmirage-core/ovs.c:415-419 | byte i is (ip >> 8i) & 0xFF |
| OvsText.IpBytesValue | src/netmirage-core/ovs.c:415-419 | the four bytes, least significant first, give the address back |
| OvsText.MacText | src/ip.c:285-287 | six two-digit octets separated by colons |
| OvsText.DecU32 | src/netmirage-core/ovs.c:437 | a 32-bit value prints in at most ten digits |
| OvsText.Part | src/netmirage-core/ovs.c:478-494 | an optional `, key=value` piece, present exactly when the value is |
| OvsText.InPort | src/netmirage-core/ovs.c:478-482 | the input port is printed only when nonzero |
| OvsText.MacPart | src/netmirage-core/ovs.c:498-509 | an optional MAC rewrite is rendered when given |
| OvsText.IpFlowTextNoNul | src/netmirage-core/ovs.c:473-512 | the IP rule holds no NUL, so the command receives all of it |
| OvsText.ArpOnlyFits | src/ovs.c:326-327 | the ARP-only rule and its NUL fit in 256 bytes |
| OvsText.ArpLoadsRecover | src/netmirage-core/ovs.c:452-455 | both loads carry their address losslessly: the hex reads back as the MAC octets and as the address bytes |
| OvsText.Concat | src/netmirage-core/ovs.c:437-438 | a printf then `--actionLen`: the text replaces the old NUL, one NUL follows, and the length points at it |
| OvsText.ConcatPart | src/netmirage-core/ovs.c:478-494 | an optional piece is appended exactly when its value is given |
| OvsText.BuildMatch | src/netmirage-core/ovs.c:473-494 | the buffer holds the match text and a NUL |
| OvsText.BuildActions | src/netmirage-core/ovs.c:496-512 | the actions text follows at the given length, then a NUL |
| OvsText.BuildIpFlow | src/netmirage-core/ovs.c:473-512 | the buffer holds exactly the IP rule and a NUL |
| OvsText.BuildArpRule | src/netmirage-core/ovs.c:435-458 | the buffer holds exactly the ARP responder rule and a NUL |
| OvsText.BuildArpMatch | src/netmirage-core/ovs.c:437-447 | the first four pieces: the match and the Ethernet rewrite |
| OvsText.BuildArpLoads | src/netmirage-core/ovs.c:449-458 | the last four pieces: the ARP reply fields and the output |
| Ovs.HexOctets | src/netmirage-core/ovs.c:421-425 | a fresh array of 2n + 1 characters holds the hex rendering and a NUL |
| Ovs.Context.constructor | src/netmirage-core/ovs.c:147-188 | an initialised, empty action buffer |
| Ovs.Context.AddIpFlow | src/netmirage-core/ovs.c:463-515 | a switch error is returned with the buffer unchanged; otherwise the buffer holds exactly the IP rule and a NUL, the command receives it, and its result is returned |
| Ovs.Context.AddArpResponse | src/netmirage-core/ovs.c:404-461 | a switch error is returned with the buffer unchanged; otherwise the buffer holds exactly the ARP rule for the address and MAC, the command receives it, and its result is returned |
| OvsOld.IssuedDistinct | src/ovs.c:312-313 | until the counter wraps, port ids are distinct and never 0 |
| OvsOld.IssuedWraps | src/ovs.c:313 | after 2^32 ports the first id comes round again |
| OvsOld.Context.constructor | src/ovs.c:244 | no port yet, next id 1, an empty action buffer |
| OvsOld.Context.AddPort | src/ovs.c:304-315 | on success the port gets the current id and the counter advances modulo 2^32; a failure returns its error and changes nothing |
| OvsOld.Context.ArpOnly | src/ovs.c:317-331 | after the switch and `del-flows` succeed, the whole ARP-only rule goes to `add-flow` |
| OvsOld.Context.AddIpFlow | src/ovs.c:333-384 | the buffer holds exactly the IP rule and a NUL, which the command receives |
| OvsVersion.StopAt | src/netmirage-core/ovs.c:153 | the first newline or NUL at or after a position, or the end |
| OvsVersion.LineEnd | src/netmirage-core/ovs.c:153-154 | the first newline when no NUL precedes it |
| OvsVersion.LastToken | src/netmirage-core/ovs.c:155-156 | the longest space-free suffix of the line |
| OvsVersion.LastTokenUnique | src/netmirage-core/ovs.c:155-156 | any space-free suffix that starts the line or follows a space is the last token |
| OvsVersion.VersionOf | src/netmirage-core/ovs.c:147-158 | no version for a failed command, empty output or no first line; otherwise the last token of the first line |
| OvsVersion.VersionOfFirstLine | src/netmirage-core/ovs.c:147-158 | what follows the first newline never matters |
| OvsVersion.ToolVersion | src/netmirage-core/ovs.c:147-158 | the buffer scan computes VersionOf |
| OvsVersion.FindLineEnd | src/netmirage-core/ovs.c:153 | the scan stops at the first newline or NUL |
| OvsVersion.TokenStart | src/netmirage-core/ovs.c:155-156 | the walk back stops just after the last space, or at the start |
| OvsVersion.Version | src/netmirage-core/ovs.c:160-188 | a version exactly when all six tools report the same one; the loop stops at the first disagreement |
| OvsVersion.AsWrittenAgrees | src/netmirage-core/ovs.c:153 | when the output holds a newline or NUL, the unbounded scan agrees |
| OvsVersion.AsWrittenReadsStale | src/netmirage-core/ovs.c:153 | output "2.5.0" without a newline: no version, but the unbounded scan reads a stale newline and reports "2.5.0" |
| Worker.NeededEntries | src/worker.c:366-367 | two entries per link, three per client node, 100 spare |
| Worker.NeededAsWritten | src/worker.c:366-367 | the 64-bit count equals the exact one when it does not wrap |
| Worker.ScalingFor | src/worker.c:355-390 | thresholds are written exactly when all reads succeed and gc2 < needed <= INT_MAX; gc2 becomes the needed count and the gaps between thresholds are kept; the result is 0 exactly on success |
| Worker.EnsureSystemScaling | src/worker.c:352-391 | corrected: the decision with the exact count |
| Worker.EnsureSystemScalingAsWritten | src/worker.c:352-391 | equals the corrected decision whenever the count does not wrap |
| Worker.ScalingGrows | src/worker.c:378-382 | new thresholds stay ordered and each grows |
| Worker.ScalingSettles | src/worker.c:375 | once written, the same topology needs no further change |
| Worker.NeededWraps | src/worker.c:366-371 | 2^63 links wrap the count to 100, so the code reports success while the exact count is refused |
| Worker.GetEdgeRemoteMac | src/worker.c:112-151 | at most five lookups, each after an EAGAIN and a successful ping; the result is 0 exactly when the last lookup succeeded, and 1 when all five answered EAGAIN |
| Worker.Root.constructor | src/worker.c:213 | no root namespace or switch open |
| Worker.Root.AddRoot | src/worker.c:213-248 | joining an existing root already open changes nothing; otherwise the namespace is open exactly when its open succeeded, the addresses are recorded after configuration, the switch is open exactly when ovsStart returned a context, and the result is what the code returns, 0 after a failed deletion of the stale database included |
| Worker.RootSetupResultAsWritten | src/worker.c:221-247 | as written: 0 exactly when every step that runs succeeds or the switch start failed to delete the stale database |
| Worker.UnlinkFailureReportsSuccess | src/netmirage-core/ovs.c:281-283 | a new root whose switch start could not delete the stale database is reported as set up |
| Worker.RootSetupResult | src/worker.c:221-247 | corrected: 0 exactly when every step that runs succeeds and the switch started; a failed start reports its error, the errno of the failed deletion included |
| Worker.RootSetupAgrees | src/worker.c:235 | the two results agree whenever the switch start did not stumble on the stale database |
| EdgeArgs.Split | src/netmirage-core/main.c:108-140 | the comma-separated fields of an argument |
| EdgeArgs.SplitFields | src/netmirage-core/main.c:110-113 | no field holds a comma |
| EdgeArgs.JoinFront | src/netmirage-core/main.c:108-140 | joining with one more field in front |
| EdgeArgs.SplitFront | src/netmirage-core/main.c:110-114 | splitting at the first separator |
| EdgeArgs.JoinSplit | src/netmirage-core/main.c:108-140 | joining the fields gives the argument back |
| EdgeArgs.SplitJoin | src/netmirage-core/main.c:108-140 | splitting joined comma-free fields gives them back |
| EdgeArgs.CommaNotPrefix | src/netmirage-core/main.c:116-134 | a name with a comma is a prefix of no keyword |
| EdgeArgs.CommaSelectsNothing | src/netmirage-core/main.c:116-139 | a name with a comma selects no key |
| EdgeArgs.ApplyFieldsFails | src/netmirage-core/main.c:118-139 | options are rejected exactly when one has no '=', an empty name, or a name selecting no key |
| EdgeArgs.ApplyFieldsLastWins | src/netmirage-core/main.c:129-134 | a repeated option overrides: each key holds its last value, and the address never changes |
| EdgeArgs.ApplyFieldsPrefix | src/netmirage-core/main.c:109-140 | the options up to the last field, then the last |
| EdgeArgs.FindFrom | src/netmirage-core/main.c:110-118 | the first occurrence at or after a position |
| EdgeArgs.FindFromFirst | src/netmirage-core/main.c:110-118 | nothing before the answer matches, and None means no match at all |
| EdgeArgs.FindFromAt | src/netmirage-core/main.c:110-118 | a match with none before it is the answer |
| EdgeArgs.FindFromNone | src/netmirage-core/main.c:110-118 | with no match the answer is None |
| EdgeArgs.FindFromAgree | src/netmirage-core/main.c:110-118 | strings agreeing from a position have the same answer |
| EdgeArgs.FindFromRest | src/netmirage-core/main.c:110-118 | the search from a position is strchr on the rest |
| EdgeArgs.FieldEnd | src/netmirage-core/main.c:110 | a field ends at the next comma or at the end |
| EdgeArgs.FieldBounds | src/netmirage-core/main.c:110-113 | a field holds no comma, and a comma ends it unless the argument does |
| EdgeArgs.FieldEndInside | src/netmirage-core/main.c:110 | a field starting inside another ends where it does |
| EdgeArgs.CEnd | src/netmirage-core/main.c:113 | a C string ends at the first NUL |
| EdgeArgs.StrChr | src/netmirage-core/main.c:110-118 | strchr within the C string at a position |
| EdgeArgs.CStrCut | src/netmirage-core/main.c:113 | in the cut argument, the C string at any position is the field there |
| EdgeArgs.FetchDesignated | src/netmirage-core/main.c:103-134 | once every comma is a NUL, the pointers read the fields they designate |
| EdgeArgs.ScanRound | src/netmirage-core/main.c:109-140 | one round of the scan on the original argument |
| EdgeArgs.CutNext | src/netmirage-core/main.c:113 | cutting the next comma extends the cut |
| EdgeArgs.CutEnd | src/netmirage-core/main.c:110-111 | with no comma ahead, all are cut |
| EdgeArgs.CutNuls | src/netmirage-core/main.c:113 | a partly cut argument differs from the original only by NULs |
| EdgeArgs.CutOneMore | src/netmirage-core/main.c:136 | so does one with one more NUL |
| EdgeArgs.SearchAhead | src/netmirage-core/main.c:110-118 | ahead of the cut the array is the original, so strchr finds what FindFrom finds |
| EdgeArgs.SplitEdgeArg | src/netmirage-core/main.c:103-140 | the in-place splitter answers ScanFrom's pointers, cutting only NULs into the argument |
| EdgeArgs.SplitRound | src/netmirage-core/main.c:109-139 | one round of the loop computes ScanRound |
| EdgeArgs.CutField | src/netmirage-core/main.c:110-114 | the comma ending the field becomes a NUL |
| EdgeArgs.OptionKey | src/netmirage-core/main.c:118-139 | the option's '=' and the key its name selects; an unknown name's '=' becomes a NUL |
| EdgeArgs.SplitHead | src/netmirage-core/main.c:110 | the first field split from a position is the field there |
| EdgeArgs.NextField | src/netmirage-core/main.c:110-114 | a comma splits the options into the next field and the rest |
| EdgeArgs.LastField | src/netmirage-core/main.c:111 | with no comma ahead the field is the last |
| EdgeArgs.ApplyFirst | src/netmirage-core/main.c:109-140 | a rejected first option rejects all; an accepted one hands on its result |
| EdgeArgs.FieldWithoutEquals | src/netmirage-core/main.c:118-122 | no '=' ahead: the option is rejected |
| EdgeArgs.FieldWithEquals | src/netmirage-core/main.c:118-139 | an '=' found ahead: an empty name is rejected; an '=' beyond the field leaves a comma in the name, which selects nothing |
| EdgeArgs.OptionAtField | src/netmirage-core/main.c:116-139 | an option means the same read on positions or as its field |
| EdgeArgs.DesignatedSet | src/netmirage-core/main.c:130-134 | moving a pointer makes its key designate the field there |
| EdgeArgs.FieldsFromStep | src/netmirage-core/main.c:109-140 | one step of the options read on positions |
| EdgeArgs.FieldsFromSplit | src/netmirage-core/main.c:109-140 | on positions, the options are the split fields after the first |
| EdgeArgs.EdgeArgFrom | src/netmirage-core/main.c:103-140 | an argument means its address field with the options applied |
| EdgeArgs.RoundAtEnd | src/netmirage-core/main.c:110-111 | with no comma left, the scan answers its pointers and the meaning its fields |
| EdgeArgs.RoundRejects | src/netmirage-core/main.c:119-138 | a bad option: the scan and the meaning both reject |
| EdgeArgs.RoundAccepts | src/netmirage-core/main.c:129-134 | a known option: the scan moves that key's pointer past the '=', and the meaning sets the key to that field |
| EdgeArgs.RoundMeaning | src/netmirage-core/main.c:109-140 | each round of the scan agrees with the field meaning |
| EdgeArgs.ScanMeaning | src/netmirage-core/main.c:109-140 | from any point on, the scan's pointers agree with the meaning |
| EdgeArgs.SplitMeaning | src/netmirage-core/main.c:103-140 | the splitter accepts exactly the arguments that have a meaning, and its pointers read exactly the fields of that meaning |
| EdgeConfig.NodeOf | src/netmirage-core/main.c:47-71 | a node exactly when the address parses, the interface is not empty, and the MAC and subnet parse when given |
| EdgeConfig.StrNEqualPrefix | src/netmirage-core/main.c:179 | strncmp over n characters holds exactly for strings starting with the n-character string |
| EdgeConfig.EdgeGroupNames | src/netmirage-core/main.c:179 | a group is an edge group exactly when its name starts with "edge" or "node" |
| EdgeConfig.SetupFront | src/netmirage-core/main.c:176-196 | one group is skipped, stops the reading, or puts its node in front |
| EdgeConfig.SetupNodesPerGroup | src/netmirage-core/main.c:174-200 | a successful reading adds exactly one node per edge group, each its group's node; a failed one adds fewer |
| EdgeConfig.Args.constructor | src/netmirage-core/main.c:98-101 | no edge nodes, none from the setup file |
| EdgeConfig.Args.AddEdgeNode | src/netmirage-core/main.c:47-71 | added exactly when NodeOf gives a node, which is appended; otherwise nothing changes |
| EdgeConfig.Args.EdgeNodeArg | src/netmirage-core/main.c:92-146 | ignored when coming from the setup file; otherwise nodes loaded from the setup file are dropped, and the result is 0 exactly when the argument describes a node, which is appended, else EINVAL |
| EdgeConfig.Args.ReadGroup | src/netmirage-core/main.c:177-196 | an edge group's node is added and marked as loaded from the setup file, or the reading fails; other groups change nothing |
| EdgeConfig.Args.ReadSetupEdges | src/netmirage-core/main.c:174-200 | the answer and the appended nodes are those of SetupNodes over the groups in order |

## Left out

- Socket I/O, process control and the kernel are parameters:
  - `socket`, `bind`, `getsockname`, `sendmsg`, `recvmsg`, `ioctl`, namespace switching;
  - fork/exec of `ping` and of the OVS tools, the ping exit status, `sleep`.
- Library parsers and formatters are parameters:
  - `inet_pton` in ip4GetAddr;
  - `macGetAddr`;
  - `strtod`;
  - `g_key_file` lookups;
  - `ip4AddrToString` and `ip4SubnetToString` texts.
- Other parts left out:
  - `netGetRemoteMacAddr`'s MAC output (only its result code is a parameter);
  - the Open vSwitch daemons (ovsStart, ovsAddBridge, kernel modules); what ovsStart returned is the `SwitchStart` parameter of Worker.Root.AddRoot;
  - logging.
- Threads are modelled sequentially:
  - the glib thread pool, mutex and condition variable;
  - `g_get_num_processors`.
  - RouteChunks.RunUnits runs the queued work units one after another in queue order. The units touch disjoint blocks of one round's chunk, and the C code waits for all of them.
- Floating point:
  - Weights are integers or infinity, standing for floats. Rounding in float addition is not modelled.
  - The capacity estimate of ncNewCache is a parameter of the constructor.
  - The fragment sizes ip4FragmentSubnet computes with `log2` are parameters of IpIter.FragIter.constructor.
- RoutePlanner.Planner.PlanRoutes: does not state that the result holds shortest paths. It states that the table is exactly the blocked Floyd-Warshall of the old table, that no weight rises, that a cell changes only to a strictly lighter detour, and that next hops stay in the table.
- RouteFinder.Finder.PlanRoutes: the same as RoutePlanner.Planner.PlanRoutes, for the plain Floyd-Warshall.
- RoutePlanner.Planner.GetRoute and RouteFinder.Finder.GetRoute: require that the next hops lead from start to end. The C loop never ends otherwise; a planned table provides this.
- Allocation failure:
  - `malloc`/`realloc` returning NULL, `strdup` failure and leaks are not modelled;
  - the aborts of `emul`, `emul32` and flexBufferGrow are preconditions or an `aborted` result in FlexBuffer and RoutePlanner, with three exceptions listed next.
- NetlinkNew.MsgBuffer.Reserve: sizes are unbounded naturals. flexBufferGrow's abort when `len + amount` or twice that overflows size_t (src/common/lib/mem.c:86-89) is not modelled.
- NetlinkOld.MsgBuffer.Reserve: sizes are unbounded naturals. The size_t wrap of `capacity * 2` (src/netlink.c:94-96), which would make realloc shrink the buffer, is not modelled.
- RouteFinder.Finder.constructor: the table has n * n cells whatever n is. The abort of `emul` and `eamalloc` when n * n cells of 8 bytes exceed size_t (src/routeplanner.c:37-40) is not modelled.
- Byte encodings assume a little-endian host: the C code writes netlink header fields, attribute headers and `int` payloads in host byte order, and the model fixes that order to little-endian (NlWire.LE16, NlWire.LE32, NetMessages.IntBytes).
- The older nlCleanup (src/netlink.c:33-35) only frees the block and leaves the length and capacity as they were. It is not modelled because no later call of the older module follows it.
- The netlink response handler is a pure function of the message it is given (header fields, error code and payload). The `arg` state a C handler may update between calls is not modelled, so a handler whose answer depends on the messages it saw before is outside the model.
- qsort in ip4NewIter is not run. The sorted ranges are a parameter, required to be the ranges of the avoided subnets in ignoreRangeCompare order.
- IpIter.Iter.Next: its guarantees that no produced address is avoided hold when no avoided subnet ends before the iterated subnet starts. Otherwise, the C code's skipping of stale ranges is modelled but not characterised.
- Ip.SubnetSize requires a prefix length of at least 1, because `1U << 32` is undefined in C.
- Linked list and pointers:
  - The namespace cache's linked list is a sequence.
  - The dangling `newest` pointer that a failed reuse of the only node leaves behind is not modelled.
- rpProcessChunkThreaded's units array is the sequence of start indices; the flexBufferGrow of that array is not modelled.
- EdgeConfig.Args.ReadSetupEdges requires every edge group to name its address, because ip4GetAddr on the NULL `ip` of a group without one is undefined behaviour.
- NetMessages.GetNamespacePath: snprintf's encoding error (a negative result) cannot happen for these strings and is not modelled.
- Duplicate copies are modelled once, and the Model table cites the newer copy:
  - the flex buffer of src/mem.c:28-127 differs only in the allocator it calls;
  - the namespace cache of src/netcache.c:40-106 differs only in malloc versus emalloc and the `create` parameter;
  - the send and receive retry tests of src/netlink.c:200-234 are the same as the newer ones;
  - the version check of src/ovs.c:138-179 is the same as the newer one.
- Worker.ScalingFor: the `int` additions that raise the thresholds are exact here. The C code would overflow when a threshold is near INT_MAX.
- OvsText.BuildArpRule: the ARP rule is shown to be exactly the text the builders print, but the model does not state that it holds no NUL, because the address text is a parameter.

## Findings

| source | as written | input that shows it | evidently intended | confidence | as-written member | corrected member |
|---|---|---|---|---|---|---|
| src/common/lib/netlink.c:67 | nlNewContext returns 0 (NULL) after nlNewContextInPlace succeeds | any successful socket setup | return the new context | high (not executed) | NetlinkNew.NewContextAsWritten | NetlinkNew.NewContext |
| src/netlink.c:41 | the same `return 0` in the older copy | any successful socket setup | return the new context | high (not executed) | NetlinkOld.NewContextAsWritten | NetlinkOld.NewContext |
| src/net.c:339-348 | IFA_BROADCAST and IFA_ANYCAST carry `addr` instead of `broadcastAddr` and `anycastAddr` | addr 10.0.0.1, broadcast 10.0.0.255 | each attribute carries its own address | high (not executed) | NetMessages.BroadcastCarriesAddress | NetMessages.IntendedAddrPayloads |
| src/routeplanner.c:28-30 | `from * nodeCount + to` is 32-bit nodeId arithmetic | 65537 nodes: cells (65536, 0) and (0, 65536) | a `size_t` index | medium (not executed) | RouteFinder.EdgeIndexCollision | RouteFinder.EdgeIndexDistinct |
| src/netmirage-core/routeplanner.c:170-171 | `nodeCount + BlockSize - 1` wraps in 32 bits | nodeCount 2^32 - 1 gives a 0-node planner | refuse or round without wrap | medium (not executed) | RoutePlanner.RoundingWraps | RoutePlanner.RoundedNodeCountBounds |
| src/netmirage-core/ovs.c:153 | strchr runs past the tool's output, which is not NUL-terminated | output "2.5.0" with a stale "\n" in the buffer after it | search only the bytes the tool printed | medium (not executed) | OvsVersion.AsWrittenReadsStale | OvsVersion.ToolVersion |
| src/worker.c:366-371 | the needed count wraps modulo 2^64 before the INT_MAX guard | 2^63 links: the count becomes 100 | refuse the topology | low (not executed) | Worker.NeededWraps | Worker.EnsureSystemScaling |
| src/netmirage-core/ovs.c:281-283 | a failed deletion of the stale database leaves `*err` unset, so workerAddRoot (src/worker.c:235) returns 0 with no switch | a new root whose `<dir>/ovs.db` cannot be unlinked (EACCES) | report the errno of the failed deletion | high (not executed) | Worker.RootSetupResultAsWritten | Worker.RootSetupResult |
