# Verification of the MyCNI address allocators and endpoint datapath

This Dafny project models the three parts of MyCNI that decide which address a pod gets and where a
packet for that address goes, and proves properties of every run of them.

**Local allocator** (`plugins/ipam/local`). A plugin call is a process that locks a file, loads the lease
table, scans the ring of addresses above the gateway from a stored pointer, and writes the table back.
`AddressRing` holds the ring and the exact condition under which the scanning loop ends. `LeaseStore` and
`LocalIpam` are the store and the critical sections as imperative code, proved against the atomic table of
`LeaseTable`. `LeaseRuns` proves what whole runs guarantee (reuse distance, exact round robin, exclusive
leases). `LeaseProtocol` lets any number of processes interleave step by step, including the creation of
the file under a shared lock, and proves that every interleaving is linearizable to the atomic table. The
operations are ADD, DEL and CHECK of the CNI Specification 1.0.0, section 2 (Execution Protocol).

**Etcd-mode allocator** (`plugins/ipam/etcdmode`, `utils/conf_helper.go`, `etcdwrap`). `EtcdKeys` proves
the key space collision-free, `CidrList` the address enumeration and the gateway rule exact, `Text` and
`Ipv4` the text codecs. `EtcdClient` and `Allocator` are the operations as reads and writes of one shared
store. `PoolQueue` is the queue a pool's text stands for; `ClusterState` proves that the texts in the store
represent a cluster of such queues through every operation. `ClusterRuns` draws the consequences about the
store itself (conservation, uniqueness, what ADD answers), and `PoolOrder` those over time: which commands can
change a host's keys, how long a device keeps its address, and the order of reuse. `AddressSharing` and
`HostNamedPool` follow two failures through every reachable store.

**Endpoint datapath** (`plugins/main/vxlan/main.go`, `bpfmap`, `ebpf/veth_ingress.bpf.c`). `EndpointMap`
is the bounded map and the code that fills and clears it, `VethIngress` the packet program on a byte array,
and `Datapath` joins the two over all histories.

`Bits`, `Bags`, `Runs`, `Results` are helpers; `HostSubnets` has the facts about the sixteen seeded subnets.

`dafny verify dfyconfig.toml` checks the whole project.

Facts about the code that the proofs turned up:

- The local scan has no bound of its own. With a pointer outside the ring and every address leased it never
  ends; `AddressRing.ScanEndsIff` gives the exact condition, and the table invariant always supplies it.
- The top address of a local subnet is handed out like any other; only the network and gateway addresses
  are excluded.
- The cluster pool's text is blank both before seeding and after the sixteenth take, so it is seeded again
  then. Host subnets are distinct exactly while at most 16 hosts have run an ADD
  (`ClusterRuns.SubnetsDifferIff`). `ClusterRuns.SeventeenHostsShareAddress` shows two pods with one address
  after that, and `AddressSharing.MoreThanSixteenShare` that every such store leads to two.
- A drained host pool reads as one blank token, and an address released then queues behind it. The next ADD
  drops the blank and succeeds without an address, although one is free (`PoolOrder.BlankAheadOfFree` is a run,
  `PoolOrder.BlankIffDrained` the exact condition, `PoolOrder.BlankDelaysOneAdd` the end of it).
- A host named pool reads the untaken subnets as its own subnet. Its ADDs crash, except exactly when a single
  subnet is left: then they succeed with no address and no gateway (`HostNamedPool.AddCrashesIff`).
- The enumeration loop's 32-bit counter never passes 255.255.255.255 (`CidrList.LoopEndsIff`).
- `stuff8Byte` slices nine bytes into an array of eight, so it panics on every longer byte string.
- The comment in the packet program says the destination MAC becomes the pod's and the source MAC the host
  side's. The code writes the host side's MAC as destination and the old destination as source; the model
  follows the code.
- `plugins/ipam/README.md` says DEL returns a host's subnet to the cluster pool; the code does not, and the
  model follows the code.

## Model

| member | source | states |
|---|---|---|
| AddressRing.Ring.FirstFree | plugins/ipam/local/main.go:98-124 | the scan's target: the free address met first going forward from the pointer with wrap-around, none exactly when every ring address is leased |
| AddressRing.NextIPRange | plugins/ipam/local/main.go:75-82 | the masked containment test of NextIP accepts exactly the addresses of one contiguous range |
| AddressRing.ScanEndsIff | plugins/ipam/local/main.go:104-124 | for any subnet with room for a gateway, any pointer and any lease set, where what follows 255.255.255.255 lies in no subnet: the unbounded loop ends if and only if the pointer is the gateway or in the ring, or an address it will look at is free |
| LeaseStore.Store.LoadData | plugins/ipam/local/store/store.go:58-91 | a missing file is created with the empty table, a cut-short file is an error that changes nothing, a document replaces the in-memory table |
| LeaseStore.Store.GetIPByID | plugins/ipam/local/store/store.go:99-106 | finds a lease of the id if there is one, whatever order the map is searched in; with one lease per id the answer is determined |
| LeaseStore.Store.Add | plugins/ipam/local/store/store.go:109-120 | the lease is added, the pointer moves to it, the file holds the new table |
| LeaseStore.Store.Del | plugins/ipam/local/store/store.go:123-131 | an id without a lease changes nothing; otherwise one of its leases goes and the pointer stays |
| LocalIpam.NewIPAM | plugins/ipam/local/main.go:43-61 | for every text: succeeds exactly for parseable subnets of at least two addresses; the subnet is the one the address in the text lies in, whether or not that is the network's own, and the gateway is the address after the network's; an error for unparseable text; a crash only on 255.255.255.255/32, in a library that panics past that address |
| LocalIpam.IPAM.NextIP | plugins/ipam/local/main.go:75-82 | the next address inside the subnet's range, or the overflow error; a panic only past 255.255.255.255, in a library that panics there |
| LocalIpam.IPAM.AllocateIP | plugins/ipam/local/main.go:84-127 | from any reachable file the loop does what the atomic ADD does to the table, answers what it answers, and leaves it in the file, with at most N lookups and one wrap; it panics and leaves the table alone exactly where the library panics, the subnet ends at 255.255.255.255, the container has no lease and everything after the pointer is leased |
| LocalIpam.IPAM.ReleaseIP | plugins/ipam/local/main.go:129-138 | the same for the atomic DEL |
| LocalIpam.IPAM.CheckIP | plugins/ipam/local/main.go:140-154 | the same for the atomic CHECK, which changes nothing but may create the file |
| LeaseTable.ApplyKeepsInv | plugins/ipam/local/store/store.go:94-131 | every operation keeps: leases lie in the ring, one address per id, pointer empty or in the ring, pointer empty only while nothing is leased; once set the pointer is never empty again, and an operation that leaves it empty changes nothing |
| LeaseTable.FullIff | plugins/ipam/local/main.go:104-126 | at most N leases exist, and the ring is full exactly with N |
| LeaseTable.AddExact | plugins/ipam/local/main.go:98-126 | a new id gets the first free address after the pointer, recorded with its id and interface and as the pointer, and nothing else changes; it fails exactly when all N are leased, changing nothing; the overflow error appears exactly for an empty ring |
| LeaseTable.WithLease | plugins/ipam/local/main.go:92-96 | for a container with a lease, whatever happened since it got it: ADD and CHECK answer the leased address and change nothing, DEL takes exactly that lease away and succeeds |
| LeaseTable.WithoutLease | plugins/ipam/local/main.go:140-154 | for a container without a lease, whatever else is leased: CHECK fails, DEL succeeds, and neither changes anything |
| LeaseTable.Repeats | plugins/ipam/local/main.go:92-96 | a repeated ADD returns the same address and changes nothing, CHECK agrees with it, a repeated DEL is a no-op |
| LeaseTable.OthersUntouched | plugins/ipam/local/store/store.go:109-131 | no operation adds, moves or removes another container's lease |
| LeaseTable.DelUndoesAdd | plugins/ipam/local/store/store.go:123-131 | DEL after a fresh ADD restores the leases and keeps the moved pointer |
| LeaseRuns.LastComesLast | plugins/ipam/local/main.go:98-124 | an address just granted, released or not, is granted next only when every other ring address is leased |
| LeaseRuns.RunExists | plugins/ipam/local/main.go:84-138 | every sequence of operations has exactly one run from a reachable table, all of whose tables are reachable |
| LeaseRuns.PointerEmptyUntilFirstGrant | plugins/ipam/local/store/store.go:109-120 | in every run from the empty table the pointer is empty exactly before the first grant |
| LeaseRuns.ReuseDistance | plugins/ipam/local/main.go:98-124 | between two grants of one address every other ring address is granted or was leased before the first, so at least N-1-u other grants lie between |
| LeaseRuns.WindowDistinct | plugins/ipam/local/main.go:98-124 | with at most u leases live at a grant, it differs from all others within N-u consecutive grants; N in a row when leases are released at once |
| LeaseRuns.RoundRobin | plugins/main/vxlan/main.go:475-478 | when every ADD is followed by its DEL, the k-th grant is exactly the (k mod N)-th ring address |
| LeaseRuns.RoundRobinRepeats | plugins/main/vxlan/main.go:475-478 | when every ADD is followed by its DEL, two ADDs are granted the same address if and only if they lie a multiple of N apart |
| LeaseRuns.LeasePersists | plugins/ipam/local/store/store.go:109-131 | a lease survives every operation up to the DEL of its container |
| LeaseRuns.Exclusive | plugins/ipam/local/main.go:84-138 | an address answered to one container is answered to another only with a DEL of the first in between |
| LeaseProtocol.SafeStep | plugins/ipam/local/main.go:84-154 | one step of any process keeps the lock, file and local-copy invariants, and moves the atomic table only when an operation takes effect |
| LeaseProtocol.NoLeaseErased | plugins/ipam/local/store/store.go:58-91 | no step of any interleaving removes a lease except the DEL of its container, although LoadData creates and truncates under the shared lock |
| LeaseProtocol.PartialReadHarmless | plugins/ipam/local/store/store.go:60-83 | a cut-short file is only ever read by a CHECK, and only while there is no lease |
| LeaseProtocol.EveryExecutionLinearizable | plugins/ipam/local/main.go:84-154 | in every interleaving of any number of processes each operation takes effect once between call and return, and the operations in that order are a run of the atomic table with the answers given |
| LeaseProtocol.NoSharedAddress | plugins/ipam/local/main.go:84-154 | in every interleaving two containers are answered one address only across a DEL of the first |
| LeaseProtocol.InterleavingIsRun | plugins/ipam/local/main.go:84-154 | no update is lost: the table the file stands for is the end of the run of all operations that took effect |
| LeaseProtocol.ReuseDistanceInterleaved | plugins/ipam/local/main.go:84-154 | the whole reuse distance holds in every interleaving: between two grants of one address every other ring address is granted or was leased before, at least N-1-u grants lie between, and the table is always a reachable one |
| LeaseProtocol.NeverStuck | plugins/ipam/local/main.go:84-154 | while any process is in an operation, some process can take a step |
| LeaseProtocol.WhoCanStep | plugins/ipam/local/main.go:84-154 | in every reachable state an idle process can start any operation, a waiting CHECK gets the lock exactly while nobody writes, a waiting ADD or DEL exactly while nobody holds it, and a holder can go on |
| LeaseProtocol.EverySequenceHappens | plugins/ipam/local/main.go:84-154 | every sequence of operations, by any processes, is what takes effect in some execution |
| Text.JoinSplit | utils/conf_helper.go:173-180 | joining the pieces of any text gives it back |
| Text.SplitJoin | utils/conf_helper.go:173-180 | splitting after joining is the identity exactly on nonempty lists of separator-free pieces; the empty list becomes one blank piece |
| Text.AtoiSigned | plugins/main/vxlan/main.go:304-307 | numerals with and without a sign give their value, and the nearest 64-bit integer on overflow, as the callers drop the error |
| Text.AtoiOfOther | plugins/main/vxlan/main.go:304-307 | any text with a character that is neither digit nor leading sign gives 0 |
| Ipv4.ContainsIsRange | plugins/ipam/local/main.go:77 | the mask test of a network is membership in base..top |
| Ipv4.InetIpToUInt32 | plugins/main/vxlan/main.go:302-314 | the accumulated sum; on a canonical dotted quad it is the quad's number, on fewer than four pieces a panic |
| Ipv4.InetValueIsSum | plugins/main/vxlan/main.go:302-314 | on every text, canonical or not: the weighted sum of its first four pieces' numbers modulo 2^32, and a panic exactly with fewer than four pieces |
| Ipv4.ToUint32Keeps | plugins/main/vxlan/main.go:340-342 | the conversion keeps every 32-bit index and wraps negative numbers from the top of the word |
| Ipv4.UInt32ToInetIPIsDotted | plugins/main/vxlan/main.go:316-328 | the shifts and masks print the four octets |
| Ipv4.ParseAfterPrint | plugins/main/vxlan/main.go:302-328 | parsing undoes printing on every 32-bit number |
| Ipv4.PrintAfterParse | plugins/main/vxlan/main.go:302-328 | printing undoes parsing exactly on the canonical dotted quads |
| Ipv4.KeyInjective | plugins/main/vxlan/main.go:302-314 | different canonical addresses have different map keys |
| Ipv4.ParsesIff | plugins/ipam/local/main.go:44 | a CIDR text parses exactly if it is a canonical address, a slash and a numeral of at most 32, and gives that address and prefix length |
| Ipv4.ParsedContains | plugins/ipam/local/main.go:44-52 | the network of a CIDR text is the one network of its prefix length that contains the address in the text |
| CidrList.InvalidIPIsNumeric | utils/conf_helper.go:16-23 | the textual filter drops exactly the last octets 0, 1 and 255 |
| CidrList.FinIsTop | utils/conf_helper.go:41-43 | the mask arithmetic of the loop bound is the subnet's last address |
| CidrList.ListRange | utils/conf_helper.go:45-60 | the loop ends and collects the usable addresses of the range in order, with their suffix |
| CidrList.ListIPv4Addr | utils/conf_helper.go:29-61 | the whole listing, with both error returns, for subnets below 255.255.255.255 |
| CidrList.ListingFailsIff | utils/conf_helper.go:29-39 | the listing fails exactly on texts that do not parse as a CIDR, with its own error exactly for those without a slash |
| CidrList.LoopEndsIff | utils/conf_helper.go:46 | the wrapping counter passes the bound if and only if the subnet's last address is below 255.255.255.255 |
| CidrList.EnumerationExact | utils/conf_helper.go:29-61 | the list is ascending, without repetition, exactly the usable addresses of the network, 253·2^(24-p) of them for p up to 24 and the exact count for longer prefixes |
| CidrList.GetGateway | utils/conf_helper.go:154-165 | on the text of any address and prefix the answer is the text of the address with its last octet 1 and the same prefix; an index panic exactly on texts without a slash |
| CidrList.GatewayIsNumeric | utils/conf_helper.go:154-165 | on the text of an address this sets its last octet to 1 and keeps the prefix |
| CidrList.GatewayReplacesLast | utils/conf_helper.go:154-165 | on any text with a slash, an address or not, the last dotted piece before the first slash gives way to 1, the prefix length stays and anything after a second slash is dropped |
| CidrList.GatewaySeparate | utils/conf_helper.go:154-170 | the gateway text never occurs in the list of the same CIDR |
| CidrList.GatewayInsideIff | utils/conf_helper.go:154-165 | the gateway lies inside the network exactly when the network's last octet is 0 and p is at most 31, or it is 1 and p is 32 |
| EtcdKeys.PathInjective | utils/conf_helper.go:126-151 | pool, host, host pool, gateway and device keys never share a path, for host names without a slash other than pool and device ids with a dash |
| EtcdKeys.KeyOfPath | utils/conf_helper.go:126-151 | spelled out: mycni/ipam/pool, mycni/ipam/host, and below it /pool, /gateway and /device are the paths of the cluster pool, the host, its pool, its gateway and its device, and of no other key |
| EtcdKeys.DeviceIdInjective | plugins/ipam/etcdmode/allocator/allocator.go:145 | device ids determine container and interface when container IDs have no dash |
| EtcdKeys.DeviceIdStarts | plugins/ipam/etcdmode/allocator/allocator.go:145 | every device id of a container starts with the container ID and a dash, with the interface name as the rest |
| EtcdKeys.DeviceIdSharedIff | plugins/ipam/etcdmode/allocator/allocator.go:145 | another container can have the same device id exactly when the container ID or the interface name has a dash |
| EtcdKeys.WriteView | etcdwrap/client.go:93-101 | a write changes the value of its own key and of no other |
| EtcdKeys.RemoveView | etcdwrap/client.go:104-110 | a delete makes its own key read blank and changes no other |
| EtcdClient.WrappedClient.GetInitPoolStatus | etcdwrap/client.go:118-127 | ready exactly when the pool text is not blank, whatever the status field says |
| EtcdClient.RandomGenerateIpCIDRs | plugins/ipam/etcdmode/initpool/init_conf.go:12-18 | the array holds the sixteen subnets in order |
| EtcdClient.InitPool | plugins/ipam/etcdmode/initpool/init_conf.go:21-33 | seeds the pool exactly when its text is blank |
| Allocator.GetOneIPFromPool | plugins/ipam/etcdmode/allocator/allocator.go:14-32 | returns the first token and stores the joined rest |
| Allocator.AllocateIP2Host | plugins/ipam/etcdmode/allocator/allocator.go:35-78 | the store and answer after each of its exits, among them the index panic on a drained pool |
| Allocator.AllocateIP2Pod | plugins/ipam/etcdmode/allocator/allocator.go:107-197 | the store and answer after each of its exits, host set-up included |
| Allocator.ReleasePodIP | plugins/ipam/etcdmode/allocator/allocator.go:200-232 | a leased token is appended to the pool text and its device key deleted; otherwise nothing changes |
| Allocator.CmdAdd | plugins/ipam/etcdmode/main.go:26-64 | seeding if needed, then the pod allocation; its requirement that the listing loop ends is proved for every reachable store in ClusterRuns.ListingAlwaysEnds |
| HostSubnets.SubnetLists | utils/conf_helper.go:154-170 | addresses and gateway of each seeded subnet, through the text code |
| HostSubnets.SubnetCount | utils/conf_helper.go:29-61 | fourteen distinct addresses each |
| HostSubnets.SeedText | plugins/ipam/etcdmode/initpool/init_conf.go:12-18 | the sixteen subnets letter for letter, 10.1.1.0/28 to 10.1.16.0/28 |
| HostSubnets.SubnetTexts | utils/conf_helper.go:29-61 | the i-th one lists 10.1.i.2/28 to 10.1.i.15/28 in this order and has the gateway 10.1.i.1/28 |
| HostSubnets.SubnetsDisjoint | plugins/ipam/etcdmode/initpool/init_conf.go:12-18 | no two seeded subnets have an address in common |
| PoolQueue.HostStepKeepsInv | plugins/ipam/etcdmode/allocator/allocator.go:167-232 | every allocate and release keeps queued plus leased tokens equal to the subnet's addresses, and a blank at the head whenever nothing is queued |
| PoolQueue.FreeOrLeasedOnce | plugins/ipam/etcdmode/allocator/allocator.go:167-232 | an address is queued once or leased to one device, never both |
| ClusterState.StepRepr | plugins/ipam/etcdmode/allocator/allocator.go:107-232 | every whole operation on the store's texts does what the abstract queue operation does, for the host concerned and no other |
| ClusterState.SeededRepr | plugins/ipam/etcdmode/initpool/init_conf.go:21-33 | seeding changes the store only when no untaken subnet is left |
| ClusterState.JoinedRepr | plugins/ipam/etcdmode/allocator/allocator.go:35-78 | a host's first allocation takes the next untaken subnet; later ones return the same one and change nothing |
| ClusterRuns.Conservation | plugins/ipam/etcdmode/allocator/allocator.go:107-232 | in every reachable store, a host's non-blank pool tokens plus its device values are exactly GetValidIps of its subnet, as multisets |
| ClusterRuns.FreeXorLeased | plugins/ipam/etcdmode/allocator/allocator.go:107-232 | in every reachable store each address of a host is in its pool text or the value of exactly one device key, never both |
| ClusterRuns.OnlyHeadBlank | plugins/ipam/etcdmode/allocator/allocator.go:167-222 | the pool text splits into tokens of which only the first can be blank |
| ClusterRuns.PoolStep | plugins/ipam/etcdmode/allocator/allocator.go:107-232 | a host's pool read off the store (tokens of its pool text, device keys with text) moves by the queue operation of each command of that host and by no other command; its subnet stays |
| ClusterRuns.ListingAlwaysEnds | utils/conf_helper.go:45-60 | in every reachable store the enumeration loop of the subnet a host would take ends, so the requirement of CmdAdd always holds |
| Allocator.AnswerFromStore | plugins/ipam/etcdmode/allocator/allocator.go:107-197 | on every store, whatever it holds: an ADD that does not crash answers the address, the gateway and the prefix length that the store holds for the device and its host afterwards |
| Allocator.HostExits | plugins/ipam/etcdmode/allocator/allocator.go:35-78 | on every store: a known subnet changes nothing; otherwise the first token leaves the pool and is stored for the host even where the set-up then fails, with the index panic exactly on a token without a slash and the error exactly on one that does not parse; on success gateway and listing are stored |
| Allocator.PodCrashesIff | plugins/ipam/etcdmode/allocator/allocator.go:107-197 | on every store ADD crashes exactly if the host's set-up fails, or the host's subnet or the address stored for the device does not parse |
| ClusterRuns.AddAnswers | plugins/ipam/etcdmode/main.go:26-64 | ADD never hangs in its listing loop and never crashes in a reachable store; it answers the stored address and the host's stored gateway, which is the first address of the host's stored subnet; the address lies above it in that subnet; it answers no address exactly when it meets the blank |
| ClusterRuns.SubnetsDifferIff | plugins/ipam/etcdmode/initpool/init_conf.go:12-33 | host subnets are pairwise different exactly while at most 16 hosts have run an ADD |
| ClusterRuns.NoSharedPodAddress | plugins/ipam/etcdmode/allocator/allocator.go:107-197 | while at most 16 hosts have run an ADD, no two devices of any hosts hold the same address |
| ClusterRuns.ReseededOnlyWhenDrained | plugins/ipam/etcdmode/main.go:45-52 | the pool is written again only when a multiple of sixteen subnets has been taken |
| ClusterRuns.SeventeenHostsShareAddress | plugins/ipam/etcdmode/initpool/init_conf.go:21-33 | with 17 hosts and one ADD each, the first and the last host's pods get the same address |
| AddressSharing.OneSubnetIsShared | plugins/ipam/etcdmode/allocator/allocator.go:107-197 | from every reachable store in which two hosts have one subnet, further ADDs lead to a store in which each of its fourteen addresses is held by a device of either host |
| AddressSharing.MoreThanSixteenShare | plugins/ipam/etcdmode/initpool/init_conf.go:21-33 | from every reachable store in which more than 16 hosts have run an ADD, further ADDs lead to two devices of different hosts with one address |
| HostNamedPool.AddCrashesIff | utils/conf_helper.go:126-142 | against any reachable store an ADD from a host named pool crashes, leaving the pool as seeded, if and only if the number of hosts that have run an ADD is not 15 modulo 16; otherwise it succeeds with no address and no gateway, and takes nothing from the pool |
| PoolOrder.StepTouches | plugins/ipam/etcdmode/allocator/allocator.go:35-232 | for every store, whatever it holds and however the command ends: a command changes no key but the cluster pool, its host's own three keys and its own device key |
| PoolOrder.OthersKeepKeys | plugins/ipam/etcdmode/allocator/allocator.go:35-232 | while a host runs no command, every key of it keeps its text, whatever other hosts do |
| PoolOrder.HostsAreIndependent | plugins/ipam/etcdmode/allocator/allocator.go:107-232 | between two points of a run the tokens of a host's pool text and its device leases are what its own commands alone make of them; its subnet stays |
| PoolOrder.FoundIffAdded | plugins/ipam/etcdmode/allocator/allocator.go:244-269 | in every run the device lookup finds text exactly if an earlier ADD answered an address and no DEL of the device came since, and what it finds is the address answered |
| PoolOrder.QueueLaw | plugins/ipam/etcdmode/allocator/allocator.go:167-222 | over any stretch of any run, the texts its ADDs put in blank device keys followed by the pool text's tokens at the end equal the tokens at the start followed by the texts its DELs took from device keys |
| PoolQueue.InLog | plugins/ipam/etcdmode/allocator/allocator.go:167-222 | the list of addresses handed out holds an address exactly if some step hands it out |
| PoolOrder.ReleasedAddressGoesLast | plugins/ipam/etcdmode/allocator/allocator.go:167-222 | FIFO reuse in every run: from the DEL that gives an address back to the ADD that next hands it out, the host hands out exactly the addresses in its pool text at the DEL, in order, with any commands in between |
| PoolOrder.BlankDelaysOneAdd | plugins/ipam/etcdmode/allocator/allocator.go:167-192 | an ADD that meets the blank changes no lease; the host's next ADD for an unleased device, after any other commands, is given the first address that was free then, and none exactly if none was free |
| PoolOrder.BlankIffDrained | plugins/ipam/etcdmode/allocator/allocator.go:167-192 | in every run a host's pool text has the blank at its head exactly if the host's latest ADD for an unleased device left no address in it, whatever was released since |
| PoolOrder.BlankAheadOfFree | plugins/ipam/etcdmode/allocator/allocator.go:167-222 | fourteen ADDs of one host and the DEL of the first lead to a blank ahead of a free address, on which the next ADD for any unleased device is answered no address |
| EndpointMap.LxcMap.SetLxcMap | bpfmap/main.go:192-199 | stores the entry unless the key is new and 32 entries exist |
| EndpointMap.LxcMap.DelKeyLxcMap | bpfmap/main.go:283-289 | removes the key; reports whether it was there |
| EndpointMap.LxcMap.BatchDelKeyLxcMap | bpfmap/main.go:291-298 | removes keys up to the first missing one, and all of them when all are present once |
| EndpointMap.LxcMap.ResetLxcMap | bpfmap/main.go:229-244 | collecting and batch-deleting empties the map and counts every entry |
| EndpointMap.Stuff8Byte | plugins/main/vxlan/main.go:289-299 | pads with zeros to eight bytes, and panics exactly on more than eight |
| EndpointMap.SetVethPairInfo2LxcMap | plugins/main/vxlan/main.go:331-361 | the entry is stored under the number of the CIDR's address and no other key changes: the host end's index and hardware address, the pod end's index and hardware address, each address padded with zeros; each failure leaves the map alone |
| EndpointMap.EntryHolds | plugins/main/vxlan/main.go:340-360 | which end each of the four fields comes from, with every 32-bit index kept as it is |
| EndpointMap.DelAddresses | plugins/main/vxlan/main.go:611-617 | the loop removes the key of every address text, ignoring missing ones, and stops where a text makes the key conversion panic |
| VethIngress.KeyFromWire | ebpf/veth_ingress.bpf.c:92-93 | on either byte order the rebuilt key is the address of section 3.1 of RFC 791 |
| VethIngress.WireOfKey | ebpf/veth_ingress.bpf.c:92-93 | the wire bytes are recovered from the key, so different destinations have different keys |
| VethIngress.KeysAgree | ebpf/veth_ingress.bpf.c:93-100 | the plugin's text key and the program's wire key are the same number for every address |
| VethIngress.Ingress | ebpf/veth_ingress.bpf.c:69-119 | the verdict and the frame left in place, for every frame, protocol and map |
| VethIngress.FrameFor | ebpf/veth_ingress.bpf.c:76-119 | for every frame, by its bytes, on either byte order: left alone unless the EtherType bytes are 08 00 and 34 bytes are there; otherwise the address is bytes 30 to 33, and with an entry for it: its interface, its host MAC as destination, the old destination as source, no other byte changed; without one the frame is left alone |
| Datapath.MapIsLatest | plugins/main/vxlan/main.go:331-361 | over any history the map holds exactly the latest stored and undeleted entry of each address |
| Datapath.Call | plugins/main/vxlan/main.go:331-361 | the plugin code of each call, a store, a deletion or a reset, has on the map the effect the histories are made of |
| Datapath.MapBounded | bpfmap/main.go:13 | the map never holds more than 32 entries |
| Datapath.Delivered | ebpf/veth_ingress.bpf.c:76-119 | after any history of plugin calls, an IPv4 frame whose bytes 30 to 33 are a is redirected, on a host of either byte order, to the very interface index of the latest undeleted store for a, with that interface's hardware address as destination |

## Left out

- LeaseTable.Apply: leases and the pointer are IPv4 numbers, not the texts the file holds; `Ipv4.DottedQuad` and `Ipv4.QuadDotted` are the round trip that makes the texts equivalent.
- LocalIpam.IPAM.AllocateIP: what the address library makes of the successor of 255.255.255.255, something in no subnet or a panic, is a parameter; the library is not part of this model. `LeaseTable` and what is built on it follow the first. The lock is taken as held; `LeaseProtocol` models taking and releasing it, and its steps apply the same atomic operations that the methods are proved against.
- LeaseProtocol.EveryExecutionLinearizable: processes do not die in the middle of an operation, and lock, read, create and write calls succeed.
- CidrList.ListIPv4Addr: requires a subnet below 255.255.255.255, since the loop does not end otherwise; `CidrList.LoopEndsIff` is the exact statement.
- Allocator.AllocateIP2Host: carries the same requirement on the subnet it takes from the pool, as do `Allocator.AllocateIP2Pod` and `Allocator.CmdAdd`; every reachable store meets it (`ClusterRuns.ListingAlwaysEnds`).
- Allocator.CmdAdd: an error of the allocator and the crash that follows it are one outcome.
- ClusterRuns.Conservation: whole commands are single steps; the code has no lock or compare-and-swap around them, so interleaved commands of one host are not covered, and all store calls succeed.
- EndpointMap.LxcMap.SetLxcMap: the kernel's map is a bounded map from numbers; its memory layout and concurrent use are not modelled.
- EndpointMap.DelAddresses: takes the address texts of the deleted link as given.
- VethIngress.Ingress: the path for addresses missing from the endpoint map ends in the verdict NodeLookup; the node and vxlan maps behind it have no settled behaviour.
- Release of a host's subnet and of the cluster pool: they only delete keys and return nothing to any pool.
- Reset of the vxlan and node maps, and the unused pod-name map.
- The other two packet programs, the netlink, namespace, veth, vxlan, ARP and tc code, the Kubernetes controller, TLS and connection handling, logging, configuration and YAML parsing.
- The etcd bitmask command, whose read, search and write are separate transactions on a key that expires.
- JSON encoding, IPv6, and the fallback path used when the host name cannot be read.
