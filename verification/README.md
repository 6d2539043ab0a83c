# Models of an ESP32 EtherNet/IP adapter's network core

A Dafny model, with proofs, of four parts of the firmware:

- the DHCP server of the lwIP port (`Dhcp*.dfy`): lease allocation, time-outs, the address pool and the option codec;
- esp-netif (`Netif*.dfy`): the choice of the default interface and the history of IP events;
- the CIP object model of the OpENer stack (`Cip*.dfy`): instance numbers, attribute masks, the attribute services and the EPATH codec;
- OpENer's I/O connections (`Io*.dfy`): the search for a connection slot, opening, closing, time-outs, the hand-over of multicast production and the rounds of the connection manager.

`dafny verify dfyconfig.toml` checks the whole project.

## How the model is built

Each operation is a specification function from state to state, and a method of a class (or a loop over an array or a message buffer) that updates fields in place as the C code does and is proved to compute that function. What the code promises is proved about the functions: invariants over whole runs, exact conditions, round trips. `Words.dfy` and `Bits.dfy` hold machine words, the byte swap of stored addresses and bitwise operations on them.

Conventions:

- IPv4 addresses are given by their host-order values. Where the code compares words in stored (network) order, the model compares their byte swaps (`Raw`).
- C's unsigned arithmetic is written out with its wrap-around (`Wrap32`, `% TWO16`, the eight-bit station counter).
- Code that reads past the received length reads from a sequence that may be longer than it; past the sequence it reads zeros.
- Lease limit, lease unit, timer period and station limit of the DHCP server, the pool sizes of the connection manager and the results of calls into lwIP are parameters.
- `announced` in `Netif.Stack` is a history variable: which interfaces have been reported to the route choice since they came up. A positive lost-IP interval is configured. Restarting the DHCP server is a stop and a start with the same pool.
- A connection's `closable` says that its close function is installed, `sending` that its producing socket is valid. Only the states a target sets (non-existent, established, timed out) are told apart.

## Results that are not as one would hope

- The lease allocator compares stored words. It is correct exactly for pools that, with the address behind them, share their first three octets and do not start at 0.0.0.0 (`AllocatorCorrectIff`); for every other pool a run is given that fails. Masks of 24 bits or more always give such pools (`LongMaskIsGood`); with 10.0.1.200/16 the computed pool is not one as soon as 55 leases are allowed (`ShortMaskFails`).
- A lease time that comes to a timer of zero, by 32-bit overflow of the product or by a result below one timer period, makes a lease live 2^32 ticks instead of none (`LeaseLifetime`, `LoneClientLife`).
- A configured pool that ends right before it begins counts as one of no addresses and is kept, and the server has nothing to give (`EmptyPoolKept`); a started server has an empty pool exactly then (`PollSetExact`).
- A captive-portal URI of more than 255 bytes makes the reply unreadable for the server's own walk, and one of at most 255 bytes never does (`ReplyWalkExact`).
- A pad is read as an option with a length. The walk agrees with section 3.1 of RFC 2132 exactly on blocks whose runs of pads are even or reach the end (`PadsExact`); a single pad before the message type hides it (`OddPadLosesType`).
- Starting the automatic default interface again without its auto-up flag leaves a default that is down (`RestartSpoilsDefault`); nothing else ever makes the default wrong (`AlwaysRightIff`).
- Attribute masks belong to the class, so an attribute of one instance is readable when any instance marks that number readable (`GetSingleExact`, `MaskSpills`). Reads go by the attributes' own flags exactly when all attributes of a number agree (`OwnFlagsDecideIff`). For number 0 the list service then calls a missing encoder on instances without one (`NoEncoderIff`, `ZeroHasNoEncoder`).
- The EPATH decoder counts two words for a 16-bit member segment but moves by two bytes (`ConsumedExact`, `WideMemberDisagrees`). Its test for the reserved segment type compares low three bits with 7, where its comment names 0xE0; that rejects nothing the other tests would not (`RejectedSegments`).
- Two exclusive-owner points with one input assembly can lead to a call of a missing close function; the condition is exact (`OwnerDecision`), and distinct input assemblies rule it out (`DistinctNeverCrashes`).
- The loop that closes all input-only connections of an input keeps a pointer to the next list node across a close that may free it; when that happens is stated exactly (`WalkSurvives`, `TimeOutLostIff`).
- The owner search compares the produced assembly although its name and comment speak of the output assembly. So an output assembly can have two established exclusive owners (`TwoDrivers`), exactly when two owner points share it and differ in their input assembly (`OutputsExclusiveIff`).
- When a time-out drops its connection, the round of the connection manager ends there, and due connections behind it wait for the next round (`SecondIsSkipped`); a round deals with all that is due exactly when that leaves nothing due behind (`RoundReachesIff`).
- The pool of list nodes counts connection points, not connection objects. A connection that joins the list finds a node exactly when fewer connections are active than there are nodes (`Allocate`). With two objects on an input-only point that can fail (`NodesRunOut`); with at most one object per point it never does (`NodesSuffice`).

## Model

| member | source | states |
|---|---|---|
| `DhcpSafety.AllocatorSafe` | components/lwip/apps/dhcpserver/dhcpserver.c:1006-1142 | In every run of messages, ticks and restarts over a good pool the lease list is strictly sorted, no address is leased twice, no client has two leases, every address is in the pool, and the cursor is in the pool or just behind it |
| `DhcpSafety.ReceiveInv` | components/lwip/apps/dhcpserver/dhcpserver.c:1006-1142 | One message, whatever it is, keeps that invariant: the cursor skip, the first-free scan, the sorted insertion and the removal on release, refusal and decline |
| `DhcpSafety.TickInv` | components/lwip/apps/dhcpserver/dhcpserver.c:1482-1522 | One tick keeps the invariant |
| `DhcpSafety.RunInv` | components/lwip/apps/dhcpserver/dhcpserver.c:1006-1142 | Every run keeps the invariant from any state that has it |
| `DhcpSafety.SearchFacts` | components/lwip/apps/dhcpserver/dhcpserver.c:1031-1060 | What the loop over the list finds: the client's entry if there is one, otherwise the lowest free address from the cursor on and the lowest free address of the pool, although the words are compared in stored byte order |
| `DhcpSafety.InsertSorted` | components/lwip/apps/dhcpserver/dhcpserver.c:338-374 | Insertion before the first larger entry keeps a sorted list sorted |
| `DhcpSafety.PoolOrder` | components/lwip/apps/dhcpserver/dhcpserver.c:1051-1072 | On addresses of a good pool the comparison of stored words agrees with the numeric order |
| `DhcpSafety.RefusedIffFull` | components/lwip/apps/dhcpserver/dhcpserver.c:1022-1112 | A new client is refused for lack of an address if and only if every pool address is leased; otherwise it is offered a free pool address, and which one is stated |
| `DhcpExact.AllocatorCorrectIff` | components/lwip/apps/dhcpserver/dhcpserver.c:1006-1142 | For every non-empty pool of any size: the allocator is safe and refuses only when full, over all runs, if and only if the pool does not start at 0.0.0.0 and its addresses and the one behind it share their first three octets |
| `DhcpExact.StraddleFails` | components/lwip/apps/dhcpserver/dhcpserver.c:1068-1112 | A pool of at most 256 addresses that crosses into the next block refuses its first client |
| `DhcpExact.EndsAt255Fails` | components/lwip/apps/dhcpserver/dhcpserver.c:1051-1112 | A pool within one block that ends in octet 255 hands out an address outside itself to the first client after the pool is full, or to the second if it ends at 255.255.255.255 |
| `DhcpExact.BlockedFails` | components/lwip/apps/dhcpserver/dhcpserver.c:1022-1112 | The client due for the first pool address that compares above the end is refused although that address is free, or is given an address that is leased already |
| `DhcpExact.RepeatFails` | components/lwip/apps/dhcpserver/dhcpserver.c:1031-1060 | A pool of several blocks that can be filled gives its next client an address that is leased already |
| `DhcpExact.ZeroStartFails` | components/lwip/apps/dhcpserver/dhcpserver.c:1097-1112 | A pool starting at 0.0.0.0 refuses its first client |
| `DhcpExact.FillRun` | components/lwip/apps/dhcpserver/dhcpserver.c:1006-1142 | As long as their addresses do not compare above the end, new clients get the pool's addresses in ascending order, one each; when all are given out the cursor is back at the start |
| `DhcpLifetime.OthersUntouched` | components/lwip/apps/dhcpserver/dhcpserver.c:1031-1059 | A message leaves every other client's address, MAC and timer as they were |
| `DhcpLifetime.OwnMessage` | components/lwip/apps/dhcpserver/dhcpserver.c:1036-1059 | A client with an entry is answered for that address with its timer set anew, or loses the entry exactly on release, refusal or decline |
| `DhcpLifetime.TickExact` | components/lwip/apps/dhcpserver/dhcpserver.c:1442-1522 | A tick lowers every timer by one, removes exactly the entries that reach zero, and then evicts exactly the first entry with the smallest timer if and only if more than the allowed number of stations remain |
| `DhcpLifetime.CounterFits` | components/lwip/apps/dhcpserver/dhcpserver.c:1482-1522 | The list never outgrows the pool, nor the eight-bit counter |
| `DhcpLifetime.LeaseLifetime` | components/lwip/apps/dhcpserver/dhcpserver.c:1482-1522 | Over any run in which a client is silent its entry is gone or older by exactly the number of ticks, in 32-bit arithmetic; it is gone after as many ticks as its timer says, 2^32 for a timer of zero |
| `DhcpLifetime.LoneClientLife` | components/lwip/apps/dhcpserver/dhcpserver.c:1482-1522 | A single client that is served and falls silent keeps its entry for exactly that many ticks, so a lease time that comes to a timer of zero lives 2^32 ticks |
| `DhcpLifetime.AddressStable` | components/lwip/apps/dhcpserver/dhcpserver.c:1031-1132 | While a client's entry stays in the list, its address does not change and every message it sends is answered for that address, whatever the interleaving |
| `DhcpReplies.ReplyState` | components/lwip/apps/dhcpserver/dhcpserver.c:924-996 | The reply state of a well-formed block, told from its options: offer for a discover, acknowledgement or refusal of a request by the requested address or, without one, by the renewal, decline, release, and for other types the verdict on the requested address |
| `DhcpReplies.RequestBlock` | components/lwip/apps/dhcpserver/dhcpserver.c:902-997 | A DHCPREQUEST for 192.168.4.2, byte by byte, is acknowledged for that address and refused for any other |
| `DhcpReplies.RequestAnswered` | components/lwip/apps/dhcpserver/dhcpserver.c:1036-1142 | A request of a client with a lease is acknowledged and refreshes the entry exactly when it asks for, or renews, the leased address; otherwise it is refused and the entry ends |
| `DhcpReplies.ReleaseEnds` | components/lwip/apps/dhcpserver/dhcpserver.c:1114-1132 | A release and a decline end the client's entry, and a decline is remembered |
| `DhcpReplies.DeclinedIff` | components/lwip/apps/dhcpserver/dhcpserver.c:1114-1142 | A declined address is remembered exactly after a message taken as a decline |
| `DhcpReplies.StrangerAnswered` | components/lwip/apps/dhcpserver/dhcpserver.c:1064-1142 | A new client gets an entry with a fresh timer at a free pool address, and none if its message is a release, a refused request or a decline |
| `DhcpReplies.ExchangeCompletes` | components/lwip/apps/dhcpserver/dhcpserver.c:1006-1142 | A discover is offered a free address, and the request for it is acknowledged and leaves the client with the lease |
| `DhcpOptions.ParseOptionsLoop` | components/lwip/apps/dhcpserver/dhcpserver.c:902-997 | The loop computes the walk's meaning and the reply state chosen from it |
| `DhcpOptions.WalkAdvances` | components/lwip/apps/dhcpserver/dhcpserver.c:902-952 | On any input at all each step of the walk advances by at least two bytes and stays inside the received length |
| `DhcpOptions.VisitEncoded` | components/lwip/apps/dhcpserver/dhcpserver.c:902-952 | Over a block of options that fit their length bytes the walk visits exactly the written options in order, then END |
| `DhcpOptions.ParseEncoded` | components/lwip/apps/dhcpserver/dhcpserver.c:902-952 | The walk reads back the meaning of every well-formed block: the last message type and whether the last requested address is the client's |
| `DhcpOptions.VisitOversized` | components/lwip/apps/dhcpserver/dhcpserver.c:902-952 | Behind an option of more than 255 data bytes the walk lands short of the next option |
| `DhcpOptions.PadsExact` | components/lwip/apps/dhcpserver/dhcpserver.c:902-952 | The walk meets the same options as the walk of section 3.1 of RFC 2132, pads aside, if and only if every run of pads is even or reaches the end of the block |
| `DhcpOptions.OddPadLosesType` | components/lwip/apps/dhcpserver/dhcpserver.c:902-997 | A DHCPDISCOVER behind a single pad loses its message type and is not answered |
| `DhcpOptions.PutOption` | components/lwip/apps/dhcpserver/dhcpserver.c:416-422 | One option appended to the block; nothing else in the buffer changes |
| `DhcpOptions.WriteReply` | components/lwip/apps/dhcpserver/dhcpserver.c:416-535 | The buffer holds exactly the reply block for the configuration, and nothing outside it has changed |
| `DhcpOptions.ReplyWalkExact` | components/lwip/apps/dhcpserver/dhcpserver.c:416-535 | The walk over a written reply visits exactly the written options and stops at END if and only if the captive-portal URI has at most 255 bytes |
| `DhcpReplies.ReplyCarries` | components/lwip/apps/dhcpserver/dhcpserver.c:416-535 | Which option code of a reply carries which value: type, mask, lease time, server, broadcast address, MTU, router, URI |
| `DhcpReplies.ReplyDns` | components/lwip/apps/dhcpserver/dhcpserver.c:470-500 | The DNS servers of a reply: the offered ones, the server itself, or none |
| `DhcpPool.MaskAcceptedIff` | components/lwip/apps/dhcpserver/dhcpserver.c:70-81 | The mask test accepts exactly zero and the contiguous left-aligned masks |
| `DhcpPool.SubnetBounds` | components/lwip/apps/dhcpserver/dhcpserver.c:83-93 | Network and broadcast address of a prefix mask in arithmetic terms |
| `DhcpPool.NetcmpIsInterval` | components/lwip/apps/dhcpserver/dhcpserver.c:1291-1308 | The masked comparison of stored words is membership in the subnet's interval |
| `DhcpPool.PollSetSteps` | components/lwip/apps/dhcpserver/dhcpserver.c:1283-1333 | Keeps a configured pool or computes one, as the specification function says |
| `DhcpPool.AutoPoolGood` | components/lwip/apps/dhcpserver/dhcpserver.c:1310-1331 | The computed pool is not empty, lies strictly inside the subnet, excludes the server, respects the limit, and is as large as limit, server and subnet allow |
| `DhcpPool.PollSetExact` | components/lwip/apps/dhcpserver/dhcpserver.c:1283-1333 | The configured pool is kept exactly when it is enabled, begins and ends in the subnet, does not contain the server and respects the limit; whatever was configured, the resulting pool does |
| `DhcpPool.ForeignPoolReplaced` | components/lwip/apps/dhcpserver/dhcpserver.c:1301-1308 | A pool that begins or ends outside the subnet is replaced |
| `DhcpPool.AutoPoolSide` | components/lwip/apps/dhcpserver/dhcpserver.c:1310-1320 | The computed pool is on the side of the server with more room |
| `DhcpPool.EmptyPoolKept` | components/lwip/apps/dhcpserver/dhcpserver.c:1291-1308 | A configured pool that ends right before it begins is kept, for every limit |
| `DhcpPool.AcceptedPoolIsKept` | components/esp_netif/lwip/esp_netif_lwip.c:2506-2546 | A pool the option setter accepts is kept unchanged when the server starts with the same address and mask |
| `DhcpPool.SetterAcceptsIff` | components/esp_netif/lwip/esp_netif_lwip.c:2506-2546 | The setter accepts exactly the pools of two to the limit of addresses strictly inside the subnet without the server |
| `DhcpPool.CheckPool` | components/esp_netif/lwip/esp_netif_lwip.c:2515-2544 | The tests of the setter, one by one, come to that |
| `DhcpPool.LongMaskIsGood` | components/lwip/apps/dhcpserver/dhcpserver.c:1283-1333 | Every non-empty pool strictly inside a subnet with a mask of at least 24 bits is one the allocator is correct for |
| `DhcpPool.StartedPoolIsGood` | components/lwip/apps/dhcpserver/dhcpserver.c:1360-1395 | A server started with such a mask, and with a computed or accepted pool, runs over a pool it is correct for |
| `DhcpPool.StartedPoolIff` | components/lwip/apps/dhcpserver/dhcpserver.c:1360-1395 | With a mask of at least 24 bits the started server has a pool it is correct for, except exactly for a fitting configured pool that is empty, begins at 0.0.0.0 or ends in 255 |
| `DhcpPool.ShortMaskFails` | components/lwip/apps/dhcpserver/dhcpserver.c:1310-1331 | For 10.0.1.200/16 the allocator is correct over the computed pool if and only if the limit is below 55 leases |
| `DhcpServer.Server.Start` | components/lwip/apps/dhcpserver/dhcpserver.c:1360-1395 | Refuses exactly the zero address, a broken mask, and a network or broadcast address; otherwise sets pool and cursor, and the invariant of all runs holds |
| `DhcpServer.Server.Stop` | components/lwip/apps/dhcpserver/dhcpserver.c:1403-1434 | Unlinks all entries |
| `DhcpServer.Server.StopAndStart` | components/lwip/apps/dhcpserver/dhcpserver.c:1360-1434 | A stop and a start with the same address come to the restart of the specification if the pool is kept |
| `DhcpServer.FreshTimerExact` | components/lwip/apps/dhcpserver/dhcpserver.c:1008-1008 | Unless the product overflows, a fresh timer counts the whole timer periods of the lease time |
| `DhcpServer.Server.InsertNode` | components/lwip/apps/dhcpserver/dhcpserver.c:338-374 | The entry is inserted at the position the specification names |
| `DhcpServer.Server.ParseMsg` | components/lwip/apps/dhcpserver/dhcpserver.c:1006-1142 | The whole new state and the reply state are those of the specification of one message |
| `DhcpServer.Server.PoolCheck` | components/lwip/apps/dhcpserver/dhcpserver.c:1097-1142 | The last part of message handling, likewise |
| `DhcpServer.Server.ExpireLeases` | components/lwip/apps/dhcpserver/dhcpserver.c:1482-1522 | All timers lowered and expired entries unlinked in one pass, the rest counted in eight bits |
| `DhcpServer.Server.KillOldest` | components/lwip/apps/dhcpserver/dhcpserver.c:1442-1474 | Removes the first entry with the smallest timer |
| `DhcpServer.Server.Tmr` | components/lwip/apps/dhcpserver/dhcpserver.c:1482-1522 | The whole new state is that of the specification of one tick |
| `DhcpServer.Server.SearchIpOnMac` | components/lwip/apps/dhcpserver/dhcpserver.c:1531-1552 | Finds the address of a client's entry, and nothing if there is none |
| `Words.RawOrder` | components/lwip/apps/dhcpserver/dhcpserver.c:1051-1072 | Stored words of addresses that share their first three octets are ordered as the addresses are |
| `Words.RawStraddle` | components/lwip/apps/dhcpserver/dhcpserver.c:1068-1072 | For an interval of less than 256 addresses that crosses a block the stored words are ordered the other way round |
| `NetifRoute.DefaultAlwaysRight` | components/esp_netif/lwip/esp_netif_lwip.c:312-375 | Over every run of API calls, timers and address changes whose starts are harmless: without a manual choice the default is registered, up and of at least the priority of every reported interface that is up, and there is none only if no such interface is up |
| `NetifRoute.StepInv` | components/esp_netif/lwip/esp_netif_lwip.c:312-375 | Every single step keeps that invariant |
| `NetifRoute.StartKeepsDefaultIff` | components/esp_netif/lwip/esp_netif_lwip.c:1160-1238 | Starting an interface leaves the default right if and only if it is not the automatic default itself without its auto-up flag |
| `NetifRoute.AlwaysRightIff` | components/esp_netif/lwip/esp_netif_lwip.c:312-375 | From any state with the invariant, the default is right at every point of a run if and only if every start of the run is harmless in that sense |
| `NetifRoute.RestartSpoilsDefault` | components/esp_netif/lwip/esp_netif_lwip.c:1160-1238 | Creating, bringing up and starting an interface without DHCP and auto-up ends with a default that is down |
| `NetifRoute.ManualChoiceStands` | components/esp_netif/lwip/esp_netif_lwip.c:312-375 | A manual choice survives every automatic update until its interface is destroyed; then the default is the highest-priority interface that is up, or none |
| `NetifRoute.StepByHand` | components/esp_netif/lwip/esp_netif_lwip.c:312-375 | No single automatic step changes a manual choice |
| `NetifRoute.ScanLeads` | components/esp_netif/lwip/esp_netif_lwip.c:350-369 | The scan finds a registered interface that is up with the highest priority, or none if none is up |
| `NetifRoute.UpdateScans` | components/esp_netif/lwip/esp_netif_lwip.c:350-369 | After a stop or a lost address the default leads all registered interfaces, whatever it was |
| `NetifRoute.DestroyFacts` | components/esp_netif/lwip/esp_netif_lwip.c:1012-1034 | Destroying an interface removes it, keeps a manual choice of another one, and otherwise chooses anew among all |
| `NetifRoute.DownInv` | components/esp_netif/lwip/esp_netif_lwip.c:1836-1885 | Bringing an interface down keeps the invariant |
| `NetifRoute.StopInv` | components/esp_netif/lwip/esp_netif_lwip.c:1245-1297 | Stopping an interface keeps the invariant |
| `NetifRoute.UpInv` | components/esp_netif/lwip/esp_netif_lwip.c:1807-1832 | Bringing an interface up keeps the invariant |
| `NetifEffects.UpEffect` | components/esp_netif/lwip/esp_netif_lwip.c:1807-1832 | The interface is up with its recorded address and reported unless it waits for its client; the default follows; no other interface changes |
| `NetifEffects.DownEffect` | components/esp_netif/lwip/esp_netif_lwip.c:1836-1885 | The interface is down, without address and not reported; a running client is reset; the default is another one that leads all, or none; no other interface changes |
| `NetifEffects.StopEffect` | components/esp_netif/lwip/esp_netif_lwip.c:1245-1297 | The interface is down, its server or client reset, the default chosen anew; one that is down is left alone |
| `NetifEffects.StartEffect` | components/esp_netif/lwip/esp_netif_lwip.c:1160-1238 | The flag follows the configuration, the address is the recorded one, the server runs if it could be started, and exactly when the interface counts as reported |
| `NetifEffects.NewEffect` | components/esp_netif/lwip/esp_netif_lwip.c:768-863 | The new interface is registered first, down, with its configured address on record and as announced |
| `NetifEffects.DestroyEffect` | components/esp_netif/lwip/esp_netif_lwip.c:1012-1034 | The interface is gone and no other changes |
| `NetifEffects.LostTimerEffect` | components/esp_netif/lwip/esp_netif_lwip.c:1483-1520 | Without an address nothing counts as announced any more and the default is chosen anew; with one only the timer ends |
| `NetifEffects.SetAddrEffect` | components/esp_netif/lwip/esp_netif_lwip.c:1414-1481 | The address, record, announced address and timer after an address change by lwIP |
| `NetifEffects.AddressReports` | components/esp_netif/lwip/esp_netif_lwip.c:1414-1481 | A new address of an interface that is up is reported to the route choice |
| `NetifEffects.SetInfoReports` | components/esp_netif/lwip/esp_netif_lwip.c:1967-2023 | So is an accepted static address of an interface that is up and asks for such events |
| `NetifEffects.ClientEffect` | components/esp_netif/lwip/esp_netif_lwip.c:1547-1647 | Status, record, address and timer after starting and stopping the DHCP client |
| `NetifEffects.ServerEffect` | components/esp_netif/lwip/esp_netif_lwip.c:1675-1740 | Exactly when the DHCP server runs and is stopped after starting and stopping it |
| `NetifEffects.StepTouches` | components/esp_netif/lwip/esp_netif_lwip.c:312-375 | Every step changes only its own interface |
| `NetifEffects.ReportChoice` | components/esp_netif/lwip/esp_netif_lwip.c:333-349 | A reported interface becomes the default unless it is down or the default has a strictly higher priority |
| `NetifEffects.ScanFirst` | components/esp_netif/lwip/esp_netif_lwip.c:350-369 | The scan takes the first of the highest priority among the interfaces that are up |
| `NetifRoute.LostTimerInv` | components/esp_netif/lwip/esp_netif_lwip.c:1483-1520 | A firing of the lost-IP timer keeps the invariant |
| `NetifEvents.EventsTruthful` | components/esp_netif/lwip/esp_netif_lwip.c:1414-1520 | Over every run each got-IP event reports a change if and only if its address triple differs from the last one announced for that interface: the initial configuration at first, zero after a loss |
| `NetifEvents.AddressPostsIff` | components/esp_netif/lwip/esp_netif_lwip.c:1414-1481 | An address change made by lwIP posts exactly one event, and only if the address is not zero and not already on record |
| `NetifEvents.StaticPostsOnce` | components/esp_netif/lwip/esp_netif_lwip.c:1967-2023 | Setting a static address posts one event, not two, and exactly under the stated condition |
| `NetifEvents.StaticOnServer` | components/esp_netif/lwip/esp_netif_lwip.c:1716-1740 | On an interface with a DHCP server, a run that stops the server makes setting an address accepted and announced |
| `NetifEvents.ConnectedPostsOnce` | components/esp_netif/esp_netif_handlers.c:38-95 | A link that comes up posts one event with the static address exactly when there is a valid one and the DHCP client is stopped |
| `NetifEvents.AddressAfterLoss` | components/esp_netif/lwip/esp_netif_lwip.c:1414-1520 | After a recorded loss the next address is announced as changed even if it is the lost one, unless a static interface still has it on record, and then it is not announced |
| `NetifStack.Registry.AddToList` | components/esp_netif/esp_netif_objects.c:35-48 | Adds at the head and counts |
| `NetifStack.Registry.RemoveFromList` | components/esp_netif/esp_netif_objects.c:51-67 | Unlinks the first node of the interface, counts, and tells whether there was one |
| `NetifStack.Registry.Next` | components/esp_netif/esp_netif_objects.c:81-98 | Yields the successor in the list, the head for no interface |
| `NetifStack.Registry.IsListed` | components/esp_netif/esp_netif_objects.c:100-109 | True if and only if the interface is in the list |
| `NetifStack.Registry.ScanAll` | components/esp_netif/lwip/esp_netif_lwip.c:350-369 | The iteration with `Next` computes the scan of the specification |
| `NetifStack.Registry.UpdateDefault` | components/esp_netif/lwip/esp_netif_lwip.c:312-375 | The whole new state is that of the specification of an update |
| `NetifStack.Registry.OnAddress` | components/esp_netif/lwip/esp_netif_lwip.c:1414-1481 | The whole new state is that of the specification of the address callback |
| `NetifStack.Registry.NewInterface` | components/esp_netif/lwip/esp_netif_lwip.c:768-863 | Registers the interface unless DHCP client and server are both configured |
| `NetifStack.Registry.StartInterface` | components/esp_netif/lwip/esp_netif_lwip.c:1160-1238 | The whole new state is that of the specification of a start |
| `NetifStack.Registry.BringUp` | components/esp_netif/lwip/esp_netif_lwip.c:1807-1832 | The whole new state is that of the specification of bringing an interface up |
| `NetifStack.Registry.BringDown` | components/esp_netif/lwip/esp_netif_lwip.c:1836-1885 | The whole new state is that of the specification of bringing an interface down |
| `NetifStack.Registry.StopInterface` | components/esp_netif/lwip/esp_netif_lwip.c:1245-1297 | The whole new state is that of the specification of a stop |
| `NetifStack.Registry.DestroyInterface` | components/esp_netif/lwip/esp_netif_lwip.c:1012-1034 | The whole new state is that of the specification of a destruction; list and counter agree |
| `NetifStack.Registry.FireLostTimer` | components/esp_netif/lwip/esp_netif_lwip.c:1483-1520 | The whole new state is that of the specification of a timer firing |
| `NetifStack.Registry.SetInfo` | components/esp_netif/lwip/esp_netif_lwip.c:1967-2023 | The whole new state is that of the specification of setting an address |
| `NetifStack.Registry.StartClient` | components/esp_netif/lwip/esp_netif_lwip.c:1599-1647 | The whole new state is that of the specification of starting the DHCP client |
| `NetifStack.Registry.StopDhcpClient` | components/esp_netif/lwip/esp_netif_lwip.c:1547-1582 | The whole new state is that of the specification of stopping the DHCP client |
| `NetifStack.Registry.StartServer` | components/esp_netif/lwip/esp_netif_lwip.c:1675-1712 | The whole new state is that of the specification of starting the DHCP server |
| `NetifStack.Registry.StopServer` | components/esp_netif/lwip/esp_netif_lwip.c:1716-1740 | The whole new state is that of the specification of stopping the DHCP server |
| `NetifStack.Registry.ActionConnected` | components/esp_netif/esp_netif_handlers.c:38-95 | The whole new state is that of the specification of a link that comes up |
| `CipInstances.NumberingSound` | components/opener/src/cip/cipcommon.c:156-263 | After every sequence of batch adds, adds by number, creations and deletions with room for what is added: instance numbers are not zero and pairwise distinct, the count is the length of the list, and the maximum is the largest number |
| `CipInstances.BatchIsSmallest` | components/opener/src/cip/cipcommon.c:168-249 | A batch add of n assigns the n smallest unused numbers in ascending order |
| `CipInstances.AddBatchExact` | components/opener/src/cip/cipcommon.c:168-249 | A batch add of n keeps the instances there are and appends n, numbered with the smallest unused numbers |
| `CipInstances.AddByIdExact` | components/opener/src/cip/cipcommon.c:251-263 | After an add by number exactly the old numbers and that number are in use; a number in use changes nothing |
| `CipInstances.DeleteExact` | components/opener/src/cip/cipcommon.c:1515-1576 | After an allowed deletion exactly that number is out of use |
| `CipInstances.TotalLeavesRoom` | components/opener/src/cip/cipcommon.c:168-263 | Additions that total at most 65535 always find room, so no number wraps |
| `CipInstances.StepInv` | components/opener/src/cip/cipcommon.c:1473-1576 | Every single operation keeps the invariant |
| `CipInstances.NextFreeFits` | components/opener/src/cip/cipcommon.c:181-205 | While there is room the search for a free number ends within one more than the number of instances, so it stays in 16 bits |
| `CipInstances.CipClass.GetMax` | components/opener/src/cip/cipcommon.c:156-166 | The loop computes the largest number, 0 for none |
| `CipInstances.CipClass.FindFree` | components/opener/src/cip/cipcommon.c:181-205 | The search finds the lowest free number from the given one on |
| `CipInstances.CipClass.AddInstances` | components/opener/src/cip/cipcommon.c:168-249 | The whole new state of a batch add |
| `CipInstances.CipClass.AddInstance` | components/opener/src/cip/cipcommon.c:251-263 | The whole new state of an add by number: an existing number is left alone |
| `CipInstances.CipClass.CreateInstance` | components/opener/src/cip/cipcommon.c:1473-1513 | One instance more with the lowest unused number, unless the callback objects |
| `CipInstances.CipClass.DeleteInstance` | components/opener/src/cip/cipcommon.c:1515-1576 | The whole new state of a deletion: exactly that instance is unlinked |
| `CipAttributes.MasksExact` | components/opener/src/cip/cipcommon.c:406-452 | After any sequence of insertions into any instances each mask bit is set if and only if some inserted attribute of that number carries the flag |
| `CipAttributes.OrBitExact` | components/opener/src/cip/cipcommon.c:432-440 | Setting one number's bit sets that bit and disturbs no other |
| `CipAttributes.FoundIsCovered` | components/opener/src/cip/cipcommon.c:1613-1626 | Every attribute number that is found has its bit inside the masks |
| `CipAttributes.InstanceHolds` | components/opener/src/cip/cipcommon.c:406-452 | An instance's array holds the attributes inserted into it, in order, and free slots behind them |
| `CipAttributes.LookupExact` | components/opener/src/cip/cipcommon.c:500-515 | A lookup finds an attribute of that instance and number, and otherwise there is none; only number 0 can find a free slot, and exactly when is stated |
| `CipAttributes.GetSingleExact` | components/opener/src/cip/cipcommon.c:528-579 | Reading succeeds if and only if the instance has the attribute and some attribute of that number in the class is marked readable |
| `CipAttributes.UniformServices` | components/opener/src/cip/cipcommon.c:782-845 | With flags uniform per number, a read succeeds if and only if the attribute is marked readable, and a write reaches the decoder if and only if it is marked setable |
| `CipAttributes.OwnFlagsDecideIff` | components/opener/src/cip/cipcommon.c:528-579 | Every inserted attribute is readable by its own flag if and only if all attributes of a number agree on that flag |
| `CipAttributes.SetSingleExact` | components/opener/src/cip/cipcommon.c:782-845 | A write reaches the decoder if and only if the attribute found has flags beyond the excluded ones and some attribute of that number in the class is marked setable |
| `CipAttributes.SetSingleOutcome` | components/opener/src/cip/cipcommon.c:782-845 | The decoder reached or the status of the refusal, each with its condition |
| `CipAttributes.GetSingleOutcome` | components/opener/src/cip/cipcommon.c:528-579 | The data of a read that succeeds, and status 0x14 without data otherwise |
| `CipAttributes.TextRead` | components/opener/src/cip/cipcommon.c:669-686 | A string can be read back where it was written, and one that is not empty leaves the message even |
| `CipAttributes.MaskSpills` | components/opener/src/cip/cipcommon.c:432-440 | An attribute that is not marked readable is read because another instance's attribute of that number is |
| `CipObject.CipClass.InsertAttribute` | components/opener/src/cip/cipcommon.c:406-452 | The arrays after an insertion: the first free slot filled, the three masks updated, all else unchanged |
| `CipObject.CipClass.FillSlot` | components/opener/src/cip/cipcommon.c:420-428 | The loop fills the first free slot |
| `CipObject.CipClass.GetCipAttribute` | components/opener/src/cip/cipcommon.c:500-515 | The loop finds the first slot of the number |
| `CipObject.CipClass.GetAttributeSingle` | components/opener/src/cip/cipcommon.c:528-579 | Status and message are those of the specification of a read |
| `CipObject.CipClass.SetAttributeSingle` | components/opener/src/cip/cipcommon.c:782-845 | The outcome is that of the specification of a write |
| `CipServices.GetAttributeAll` | components/opener/src/cip/cipcommon.c:1074-1115 | The loop over all numbers in ascending order appends exactly the flagged attributes' encodings, and ends for a highest number below 65535 |
| `CipServices.AllIsOrderFree` | components/opener/src/cip/cipcommon.c:1074-1115 | The response does not depend on the order in which the attributes were inserted |
| `CipServices.AllIsAscending` | components/opener/src/cip/cipcommon.c:1074-1115 | The response consists of the encodings of the inserted attributes of the instance whose number is flagged, in ascending order of the numbers |
| `CipServices.AscendingExists` | components/opener/src/cip/cipcommon.c:1074-1115 | There is such a list for every sequence of insertions without repeated numbers |
| `CipObject.GetAttributeList` | components/opener/src/cip/cipcommon.c:1117-1221 | Status and message are those of the specification; the cursor agrees with the used length at the return although the count is reserved first and patched in last; a missing encoder is called exactly when the specification says so |
| `CipObject.PatchCount` | components/opener/src/cip/cipcommon.c:1206-1215 | The reserved count is filled in, the rest of the message and the used length stay |
| `CipServices.ListFits` | components/opener/src/cip/cipcommon.c:1140-1215 | For any request the used length stays within the buffer size minus 29 plus the excess of encoded over declared sizes, 0 if the declared sizes bound the encoded ones |
| `CipServices.CompleteListParses` | components/opener/src/cip/cipcommon.c:1117-1221 | A response that is not cut short parses back to one entry per request, and its general status is a list error if and only if some entry failed |
| `CipServices.EntriesAnswer` | components/opener/src/cip/cipcommon.c:1117-1221 | Entry k answers request k: it carries data if and only if reading that attribute alone succeeds, and then the same encoding at its place in the message; otherwise its status is 0x14 for an unknown attribute and 0x2C for one that is not readable |
| `CipServices.ListEnds` | components/opener/src/cip/cipcommon.c:1152-1178 | The response ends early only where the space left is too small for the declared length, or an encoder is missing |
| `CipServices.ListStatus` | components/opener/src/cip/cipcommon.c:1117-1221 | The general status and the count of every response, complete or not |
| `CipServices.NoEncoderIff` | components/opener/src/cip/cipcommon.c:1176-1186 | A request calls a missing encoder if and only if it asks for number 0, the instance has no attribute 0 but a free slot, and some instance's attribute 0 is marked readable |
| `CipServices.ZeroHasNoEncoder` | components/opener/src/cip/cipcommon.c:1176-1186 | Attribute 0 inserted readable into one instance, and a list request for it to another, which calls a missing encoder |
| `CipMessage.Message.AddInt` | components/opener/src/enet_encap/endianconv.c:133-140 | Two bytes, low one first, at the position; position and used length advance by two |
| `CipMessage.Message.AddSint` | components/opener/src/enet_encap/endianconv.c:120-126 | One byte at the position; position and used length advance by one |
| `CipMessage.Message.MoveOctets` | components/opener/src/enet_encap/endianconv.c:255-259 | Position and used length advance together |
| `CipMessage.HoldsUint` | components/opener/src/enet_encap/endianconv.c:73-78 | Reading two bytes back yields the value written |
| `CipEPath.RoundTrip` | components/opener/src/cip/cipcommon.c:1342-1471 | Decoding the path size and the encoded path, with anything before and after, returns the path as far as it was encoded, moves the cursor just behind it and reports 2*path_size+1 bytes |
| `CipEPath.RoundTripIff` | components/opener/src/cip/cipcommon.c:1342-1471 | The round trip returns the path itself if and only if its unencoded fields are zero |
| `CipEPath.DecodesAnyPath` | components/opener/src/cip/cipcommon.c:1391-1471 | A path of any number of class, instance, attribute and 8-bit member segments in any order: the last id of each kind counts, and the cursor stops right behind it |
| `CipEPath.SizeMatchesIff` | components/opener/src/cip/cipcommon.c:1342-1389 | The encoder's final assertion holds exactly for path sizes that end after the class, the instance or the attribute |
| `CipEPath.ConsumedExact` | components/opener/src/cip/cipcommon.c:1391-1471 | On any input the reported size exceeds the cursor's advance by two bytes per 16-bit member segment, and at most one word too many is consumed |
| `CipEPath.WideMemberDisagrees` | components/opener/src/cip/cipcommon.c:1456-1460 | One 16-bit member segment: five bytes are reported, three are passed |
| `CipEPath.RejectedSegments` | components/opener/src/cip/cipcommon.c:1391-1471 | The decoder rejects exactly the bytes that do not begin a class, instance, attribute or member segment |
| `CipEPath.EncodeInto` | components/opener/src/cip/cipcommon.c:1342-1389 | The message grows by exactly the encoded path |
| `CipEPath.DecodeLoop` | components/opener/src/cip/cipcommon.c:1391-1471 | The loop computes the specification's decoding |
| `IoRuns.RunInv` | components/opener/src/cip/appcontype.c:127-176 | After every run of opens, closes and time-outs: the active list holds exactly the existing connections, each once and on its own connection point; an input assembly has at most one established exclusive owner and at most one multicast producer |
| `IoOwnership.OutputsExclusiveIff` | components/opener/src/cip/appcontype.c:178-236 | Over every run an output assembly has at most one established exclusive owner if and only if owner points with the same output assembly have the same input assembly |
| `IoOwnership.TwoDrivers` | components/opener/src/cip/appcontype.c:191-194 | The two opens after which two owner points of one output assembly and different inputs are both established |
| `IoRuns.RunSelect` | components/opener/src/cip/appcontype.c:127-236 | After every run: no slot handed out is established, a request for an owned input is refused as a conflict and only then, a listener gets in only beside a producer, and with distinct inputs per owner point no missing close function is called |
| `IoRuns.StepInv` | components/opener/src/cip/cipioconnection.c:324-403 | Every event keeps the invariant |
| `IoRuns.ActivateInv` | components/opener/src/cip/cipioconnection.c:508-557 | Opening the channels and joining the list keeps the invariant, in particular one producer per input |
| `IoEffects.EstablishExact` | components/opener/src/cip/cipioconnection.c:324-403 | A granted request whose setup succeeds is established at the head of the list; one whose setup fails is in no list; a refused one changes nothing |
| `IoEffects.SelectBase` | components/opener/src/cip/appcontype.c:127-176 | A slot handed out is closed first if it was in use, and nothing else happens |
| `IoEffects.OpenEffect` | components/opener/src/cip/cipioconnection.c:508-557 | Who sends the input after an open, and that only an exclusive owner takes another connection's socket |
| `IoSelection.GrantedSlot` | components/opener/src/cip/appcontype.c:127-176 | In any state: a slot handed out belongs to a matching point and holds the request; an input-only or listen-only slot was unused or timed out on the same originator; listen-only needs an active producer of the input on a valid socket |
| `IoSelection.RefusedHasError` | components/opener/src/cip/appcontype.c:127-176 | There is no slot only with an extended error |
| `IoSelection.OwnerDecision` | components/opener/src/cip/appcontype.c:178-236 | For a request that matches an owner point: conflict, grant and missing close function, each with its exact condition |
| `IoDecisions.OwnerPointDecision` | components/opener/src/cip/appcontype.c:178-236 | The same told from the first matching point and the owners in the list, with the error code |
| `IoDecisions.InputDecision` | components/opener/src/cip/appcontype.c:238-288 | For the first matching input-only point: the first stale or else the first unused of its connection objects, and out of connections exactly when there is none |
| `IoDecisions.ListenDecision` | components/opener/src/cip/appcontype.c:290-348 | For the first matching listen-only point: no producer, a connection object, or out of connections, each exactly |
| `IoDecisions.InputMiss` | components/opener/src/cip/appcontype.c:243-256 | Without a match but with an input-only point of that output, the last such point gives the error |
| `IoDecisions.ListenMiss` | components/opener/src/cip/appcontype.c:145-150 | Without any match the last listen-only point of that output gives the error, or the paths are inconsistent |
| `IoSelection.LeadFound` | components/opener/src/cip/cipconnectionmanager.c:1417-1434 | An established owner of an input is the one the search for an owner meets first |
| `IoSelection.FindPointExact` | components/opener/src/cip/appcontype.c:290-308 | The point search finds the first match, and its error tells what is wrong with the last point of the right output assembly |
| `IoSelection.RowExact` | components/opener/src/cip/appcontype.c:258-283 | Among a point's connections a stale one of the same originator comes first, then an unused one, and otherwise there is none |
| `IoSelection.DistinctNeverCrashes` | components/opener/src/cip/appcontype.c:178-236 | With a different input assembly per owner point no search calls a missing close function |
| `IoSafety.CloseIoInv` | components/opener/src/cip/cipioconnection.c:765-797 | Closing a connection, with hand-over of the socket or the end of its listeners, keeps the invariant |
| `IoSafety.CloseIoSettles` | components/opener/src/cip/cipioconnection.c:765-797 | Closing a connection removes it and leaves the remaining ones as they were, but for a socket handed on |
| `IoEffects.CloseExact` | components/opener/src/cip/cipioconnection.c:765-797 | Exactly which connections a close takes off the list, and that the first heir gets the socket |
| `IoEffects.ExpireExact` | components/opener/src/cip/cipioconnection.c:800-866 | Exactly which connections stay when one times out |
| `IoSafety.ExpireInv` | components/opener/src/cip/cipioconnection.c:800-866 | A time-out that completes keeps the invariant |
| `IoSafety.CloseAllEmpties` | components/opener/src/cip/appcontype.c:436-444 | Closing all connections always completes and leaves none |
| `IoClosing.ListenersClosed` | components/opener/src/cip/appcontype.c:412-434 | Closing an input's listen-only connections always completes, takes exactly those off the list and changes no other |
| `IoClosing.WalkSurvives` | components/opener/src/cip/appcontype.c:412-434 | Closing an input's input-only connections loses its place in the list if and only if one of them multicasts and the last one that could is followed by a listener |
| `IoClosing.WalkEffect` | components/opener/src/cip/appcontype.c:412-434 | A walk that completes leaves no connection of the kind, and all but those and the listeners stay |
| `IoClosing.TimeOutLostIff` | components/opener/src/cip/cipioconnection.c:800-866 | The exact condition under which a time-out loses its place in the list |
| `IoFailures.SharedInputCrashes` | components/opener/src/cip/appcontype.c:192-225 | A run with two owner points on one input after which a request calls a missing close function |
| `IoFailures.TimeOutLoses` | components/opener/src/cip/cipioconnection.c:840-848 | A run after which a time-out loses its place in the list |
| `IoRounds.RoundIsRun` | components/opener/src/cip/cipconnectionmanager.c:1100-1210 | A round of the connection manager over the list comes to the run of its closes and time-outs: no close takes away the node it goes on with, and it is lost in a time-out exactly when that run is |
| `IoRounds.RoundAfterRun` | components/opener/src/cip/cipconnectionmanager.c:1100-1210 | That holds in every reachable state, so everything proved of runs holds of rounds |
| `IoRounds.RunHanded` | components/opener/src/cip/cipioconnection.c:800-866 | After every run no timed-out connection in the list sends: it has handed its socket on |
| `IoReach.RoundReachesIff` | components/opener/src/cip/cipconnectionmanager.c:1100-1210 | A round that finishes has dealt with every due connection if and only if no connection that times out without handing over leaves a due one behind it in the list |
| `IoReach.RoundReaches` | components/opener/src/cip/cipconnectionmanager.c:1100-1210 | That holds in every reachable state |
| `IoReach.ExpireEffect` | components/opener/src/cip/cipioconnection.c:800-866 | A time-out leaves the remaining connections in their phases, and its own connection stays, timed out, if and only if it produces multicast data and another connection can take that over |
| `IoReach.DueLastReaches` | components/opener/src/cip/cipconnectionmanager.c:1100-1210 | A round in which nothing is due behind a due established connection deals with all that is due |
| `IoReach.SecondIsSkipped` | components/opener/src/cip/cipconnectionmanager.c:1145-1150 | Two explicit connections due at once: the round drops one and ends, and the other is still established |
| `IoNodes.NodesSuffice` | components/opener/src/cip/cipconnectionobject.c:63-78 | With at most one connection object per input-only and listen-only point there is a list node for every active connection |
| `IoNodes.Allocate` | components/opener/src/cip/cipconnectionobject.c:63-78 | Finds the first free node, and finds one if and only if fewer connections are active than the pool has nodes |
| `IoNodes.NodesTracked` | components/opener/src/cip/cipconnectionobject.c:63-93 | Taking a node for a connection that joins the list and freeing one for a connection that leaves keep the nodes in use equal to the active connections |
| `IoNodes.NodesRunOut` | components/opener/src/cip/cipconnectionobject.c:63-78 | With two connection objects on a point, two opens need more list nodes than the pool has for it |
| `IoStack.Connections.ManageConnections` | components/opener/src/cip/cipconnectionmanager.c:1100-1210 | Completes exactly when the specified round does, and then with its state |
| `IoStack.Connections.GetIoConnection` | components/opener/src/cip/appcontype.c:127-176 | New state, slot and error are those of the specification; there is a slot exactly when there is no error |
| `IoStack.Connections.GetExclusiveOwner` | components/opener/src/cip/appcontype.c:178-236 | New state, slot and error are those of the specification of the owner search |
| `IoStack.Connections.GetInputOnly` | components/opener/src/cip/appcontype.c:238-288 | New state, slot and error are those of the specification of the input-only search |
| `IoStack.Connections.GetListenOnly` | components/opener/src/cip/appcontype.c:290-348 | New state, slot and error are those of the specification of the listen-only search |
| `IoStack.Connections.PickFromRow` | components/opener/src/cip/appcontype.c:258-283 | The two passes over a point's connections compute the specified choice |
| `IoStack.Connections.SeekPoint` | components/opener/src/cip/appcontype.c:243-256 | The loop over the points computes the specified search |
| `IoStack.Connections.GetExistingProducer` | components/opener/src/cip/appcontype.c:350-379 | The walk finds the first producer of the input |
| `IoStack.Connections.GetNextNonControlMaster` | components/opener/src/cip/appcontype.c:381-410 | The walk finds the first heir of the input |
| `IoStack.Connections.GetConnectedOutputAssembly` | components/opener/src/cip/cipconnectionmanager.c:1417-1434 | The walk finds the first owner of the produced assembly |
| `IoStack.Connections.RemoveFromActive` | components/opener/src/cip/cipconnectionmanager.c:1903-1912 | Unlinks the first node of the connection |
| `IoStack.Connections.CloseIoConnection` | components/opener/src/cip/cipioconnection.c:765-797 | The whole new state is that of the specification of a close |
| `IoStack.Connections.CloseAllForInput` | components/opener/src/cip/appcontype.c:412-434 | Completes exactly when the specified walk does, and then with its state |
| `IoStack.Connections.CloseAllConnections` | components/opener/src/cip/appcontype.c:436-444 | Completes with an empty list |
| `IoStack.Connections.HandleTimeOut` | components/opener/src/cip/cipioconnection.c:800-866 | Completes exactly when the specified time-out does, and then with its state |
| `IoStack.Connections.OpenAndAdd` | components/opener/src/cip/cipioconnection.c:508-557 | The socket goes to the new connection, stays with the producer or is opened, and the connection joins the head of the list |

## Left out

- DhcpServer.Server.ParseMsg: sending offers, acknowledgements and refusals, copying into packet buffers, static ARP entries and the choice of the delivery address are I/O; DHCPINFORM and the parameter request list are not looked at by the code either.
- DhcpOptions.WriteReply: the option area is taken to be large enough, which the code does not check.
- NetifStack.Registry.StartInterface: PPP, bridge and IPv6 parts of start, stop and destroy; the results of lwIP's `dhcp_start`, `dhcp_stop` and of `dhcps_start` are parameters.
- NetifStack.Registry.ActionConnected: other calls may come between bringing the interface up, starting the client and announcing a static address, which are events of their own in runs; reading and writing the announced address are taken together.
- NetifEvents.ConnectedPostsOnce: states what the handler posts when nothing comes between its calls.
- NetifEvents.EventsTruthful: runs in which the application writes the record of the announced address itself are excluded.
- NetifRoute.DefaultAlwaysRight: priorities are fixed per interface, so setting a route priority is not a step, and an interface counts once it has been reported to the route choice since it came up.
- CipObject.CipClass.SetAttributeSingle: the decoders behind it and the pre- and post-set callbacks.
- CipObject.GetAttributeList: callbacks around encoding. The space check of the service leaves 29 bytes of slack; the method is proved for declared sizes that fall short of the encoded ones by no more than that.
- CipObject.CipClass.GetAttributeSingle: the response buffer is taken to be large enough for the attribute, which the code does not check.
- CipServices.GetAttributeAll: the response buffer is taken to be large enough, which the code does not check; callbacks around encoding. For a highest attribute number of 65535 the 16-bit loop counter never passes it, and the loop does not end.
- CipEPath.EncodeInto: the message is taken to have room for the path, which the code does not check.
- CipInstances.CipClass.AddInstances: what is allocated with an instance; its attribute array appears with the attributes.
- IoStack.Connections.OpenAndAdd: size, RPI and configuration-data checks of a Forward_Open, addresses and connection ids; whether they pass is a parameter of an open. A list node is taken to be free, which `NodesSuffice` gives a condition for.
- IoStack.Connections.HandleTimeOut: the closing of TCP sessions by a time-out.
- IoStack.Connections.ManageConnections: the timers, of which only which connections are due appears, and the sending of data.
- SetAttributeList, whose status is overwritten by later entries; REAL, LREAL and LWORD codecs.
- Memory allocation failure and the lifetime of freed objects: linked lists are sequences of their entries, so aliasing between nodes does not appear.
- The L2TAP file system, the TCP initial sequence number hook, sockets, SNTP, ping, web UI and configuration storage.
