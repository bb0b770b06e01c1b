# Verified models of the simulation's self-contained cores

The repository wraps OMNeT++ models. Some of its files hold algorithms and protocols whose behaviour can be
stated without the simulator. This project models nine of them in Dafny and proves what they are for.
`dafny verify dfyconfig.toml` checks everything.

| files | what they model |
|---|---|
| `Topology.dfy`, `ShortestPaths.dfy`, `Wirings.dfy` | the topology graph: its edits, its sorted node index, Dijkstra on a sorted list with node weights, and breadth-first search |
| `DhcpServer.dfy`, `DhcpClient.dfy`, `DhcpNetwork.dfy`, `DhcpLaws.dfy`, `DhcpRuns.dfy` | the DHCP server and client, a network of one server and any number of clients, what each event sends and changes, and runs of the network |
| `Lehmer.dfy` | the Lehmer random number generator of the sender |
| `Int128.dfy`, `Words128.dfy`, `Numerals.dfy`, `Bits.dfy` | 128-bit integers on two machine words, with division, printing and parsing |
| `PatternMatcher.dfy`, `PatternMeaning.dfy`, `PatternGlyphs.dfy`, `PatternModes.dfy`, `PatternTexts.dfy`, `Patterns.dfy` | glob patterns: tokenizer, backtracking matcher and its shortcuts, with and without regard to case, prefix matches, and the syntax as documented |
| `Machines.dfy`, `StateMachines.dfy` | the engine of hierarchical state machines |
| `Reassembly.dfy` | reassembly of fragmented datagrams |
| `Lifecycle.dfy` | operations in stages over a tree of modules |
| `ByteBuffers.dfy` | the chunked byte buffer |
| `Common.dfy` | optional values, sequences without repetition, C strings |

Each object that the program updates in place is a class, and its methods keep the program's branches, loops and
fields. What a method does is stated against values: a graph, a step function, a language, a flat sequence. The
theorems are about those values, over every input, every run or every reachable state.

How the program's surroundings are represented:

- Timers are optional due times. The network is the set of all messages ever sent; a message may arrive any number
  of times, in any order, or never, and at any client.
- Random transaction ids are parameters. Runs assume that an id is drawn once only and is not 0; the source draws
  them with `intuniform`.
- Weights of the graph and the range of the uniform distribution are exact reals, the graph's with an infinity.
- The init actions of states and the completions of modules are functions that may be any.
- State numbers of the hierarchical machine are such that parents come before their substates, which any tree allows.
- A node that goes down loses its interface address, as the client's own start requires, and its sockets, which
  UDP clears at a shutdown or crash (`inet/src/transport/udp/UDP.cc:895-911`). UDP hands a message to a client only
  while the client's socket is bound, which its start timer does (`inet/src/applications/dhcp/DHCPClient.cc:719-725`),
  and the handing over takes no time.

Where the code does not do what it, or its documentation, says:

- A backslash does not take the meaning from a bracket that opens a numeric range (`EscapeHolds`,
  `EscapedBracketMatches`; the class comment at `inet/src/util/PatternMatcher.h:44` says it does).
- The lease timer is cancelled with the address left configured by the second timer, by response timeouts and by
  associations, and by nothing else (`AddressExpiresUnlessForgotten`). So a configured address is without its lease
  timer exactly outside BOUND and RENEWING (`AddressExpiresWhile`), and throughout a run every one has it if and only
  if no such event happens (`AddressesExpireInRuns`). `AddressOutlivesTimer` is a run that gets there. Section 4.4.5
  of RFC 2131 has the client give up the address when the lease ends.
- A client takes down its hardware address at initialization, and only if its node is up
  (`inet/src/applications/dhcp/DHCPClient.cc:98-104`); a node started later sends the address 0. So addresses are
  unique in all runs if and only if the addresses taken down at the start differ, or the pool is empty
  (`UniqueIffDistinctMacs`): with set and different interfaces, if at most one node is down at the start
  (`DistinctIffOneDown`). `TwoDownShare` has two that are.
- An association reported before the start timer has given the socket its gate is an error (`ErrorsUnreachable`);
  `AssociatedTooEarly` is a state where it is met.
- A discover that asks for an address takes it from whoever has it (`OwnersKeptUnlessStolen`). The client never asks.
- Without regard to case a literal behind a final "**" is still compared with regard to it. A full-string matcher is
  right for every line if and only if its text has no such literal with a letter behind something that matches
  (`RightUnlessCaseTrap`, `CaseTrapExample`; `inet/src/util/PatternMatcher.h:58` has no such exception).
- A prefix match with such a pattern accepts only lines that have the whole literal already (`StarPrefixIsWhole`,
  `StarPrefixExample`), and it tries only the first place where the literal contains the suffix
  (`LaterPlaceExample`); `inet/src/util/PatternMatcher.h:144-150` says neither.
- The comparison of 128-bit integers is wrong for two negative ones whose low words lie on different sides of 2^63
  (`LessIsOrder`). -2^127 prints as "-0" (`PrintedIsParsed`), and dividing any number by it
  does not end (`DivisorMinReachesLoop`, `DivisorMinNeverEnds`).
- A numeral goes on over the letter that is worth the radix itself: in radix 10 "1a" reads as 20 (`LetterTooFar`;
  `DigitIsWorth` says exactly which characters count and for how much).
- An offset and a length whose sum wraps round in 32 bits make the chunk copy reach past the chunk
  (`CopyStaysInside`).

## Model

| member | source | states |
|---|---|---|
| TopologyGraph.Topology.LowerBound | inet/src/base/Topology.cc:359-361 | the binary search returns the boundary between smaller and not smaller unsigned module ids |
| TopologyGraph.Topology.GetNodeFor | inet/src/base/Topology.cc:356-363 | null exactly if no node of the list has the module id, and otherwise the first that has it |
| TopologyGraph.Topology.InsertionPoint | inet/src/base/Topology.cc:242-252 | id -1 goes last, any other id to where the unsigned order stays intact |
| TopologyGraph.Topology.AddNode | inet/src/base/Topology.cc:240-255 | inserts the node once, keeps the index sorted and the links coherent, and returns the node's index |
| TopologyGraph.Topology.UnlinkFromSourceNode | inet/src/base/Topology.cc:332-338 | removes the link from its source's outgoing list and touches no other list |
| TopologyGraph.Topology.UnlinkFromDestNode | inet/src/base/Topology.cc:340-346 | removes the link from its destination's incoming list and touches no other list |
| TopologyGraph.Topology.DeleteLink | inet/src/base/Topology.cc:325-330 | afterwards the graph is the old one without that link, and coherent |
| TopologyGraph.Topology.AddLink | inet/src/base/Topology.cc:283-300 | also for a link already in the graph and for self-loops: it ends up once at each new end and nowhere else; gate ids survive only where the end stays |
| TopologyGraph.Topology.RemoveLinks | inet/src/base/Topology.cc:259-273 | the two loops take every link of the node out of all other nodes' lists, self-loops included |
| TopologyGraph.Topology.DeleteNode | inet/src/base/Topology.cc:257-281 | the node and all its links are gone, everything else is as before, the index stays sorted |
| TopologyGraph.Topology.ValidIsInLinked | inet/src/base/Topology.cc:283-300 | the graph that the edits keep is one the searches take: incoming links end where they are listed and start at nodes of the graph |
| Wirings.AddVertexCoherent | inet/src/base/Topology.cc:240-255 | adding an unconnected node keeps every link listed once at each end and nowhere else |
| Wirings.DetachCoherent | inet/src/base/Topology.cc:325-330 | taking links out keeps the lists coherent |
| Wirings.AttachCoherent | inet/src/base/Topology.cc:296-299 | inserting a link that is in no list keeps the lists coherent |
| Wirings.DeleteVertexCoherent | inet/src/base/Topology.cc:257-281 | deleting a node keeps the lists coherent |
| Wirings.ReconnectKeepsOthers | inet/src/base/Topology.cc:283-300 | reconnecting a link between its own ends leaves all other links in their order |
| Wirings.RunCoherent | inet/src/base/Topology.cc:240-330 | any sequence of successful edits leaves every link once in its source's and once in its destination's list and nowhere else |
| TopologyGraph.Topology.CalculateWeightedSingleShortestPathsTo | inet/src/base/Topology.cc:409-467 | for positive link and non-negative node weights, infinite ones too, and over the fields of nodes and links: every `dist` is the length of the shortest way of enabled links from enabled nodes, infinite if there is none, and `outPath` leads along such a way without a cycle; a disabled node has no way; a null target is an error that changes nothing |
| TopologyGraph.Topology.CalculateUnweightedSingleShortestPathsTo | inet/src/base/Topology.cc:365-407 | the same for numbers of hops over enabled links and nodes |
| TopologyGraph.Topology.WaysFound | inet/src/base/Topology.cc:365-467 | a solved search over the net's arcs is a solved search over the fields: ways of enabled links, lengths by link and node weights or by number of links |
| TopologyGraph.Topology.RelaxLink | inet/src/base/Topology.cc:436-464 | one round of the inner loop keeps the search invariant and settles its link |
| TopologyGraph.Topology.VisitLink | inet/src/base/Topology.cc:390-405 | one round of the breadth-first loop is one round of the weighted search on the unit network |
| TopologyGraph.Topology.SearchesAgree | inet/src/base/Topology.cc:365-467 | with all link weights 1 and node weights 0 both searches give the same distances |
| ShortestPaths.FrontIsNew | inet/src/base/Topology.cc:428-431 | a popped node was never popped before, which bounds the rounds |
| ShortestPaths.PopInv | inet/src/base/Topology.cc:430-431 | popping keeps the list sorted and duplicate-free behind the nodes done, whose distances never decrease |
| ShortestPaths.ImprovedIsQueued | inet/src/base/Topology.cc:453-454 | the source comment: a node with a finite distance that is improved is in the queue, and was never popped |
| ShortestPaths.MoveOrdered | inet/src/base/Topology.cc:453-463 | removing the improved node and inserting it before the first farther one keeps the order and loses nobody |
| ShortestPaths.ImproveInv | inet/src/base/Topology.cc:451-464 | an improvement keeps order, routes and settled links |
| ShortestPaths.RelaxInv | inet/src/base/Topology.cc:448-464 | so does a round of the inner loop, whether or not it improves |
| ShortestPaths.LowerBound | inet/src/base/Topology.cc:448-451 | once all links are settled no path is cheaper than the distance of its start |
| ShortestPaths.FinishedIsShortest | inet/src/base/Topology.cc:409-467 | optimality: least cost over all paths, infinite exactly when no path has a finite cost |
| ShortestPaths.RouteFollowsOut | inet/src/base/Topology.cc:455-456 | following the recorded links reaches the target without visiting a node twice |
| ShortestPaths.ShortestIsUnique | inet/src/base/Topology.cc:409-467 | there is only one least cost |
| ShortestPaths.UnitImprove | inet/src/base/Topology.cc:399-404 | over unit links a node is improved exactly when it was not reached, and its place is the end of the queue |
| ShortestPaths.UnitShortestIsHopCount | inet/src/base/Topology.cc:365-407 | a shortest distance over unit links is the least number of hops of any path |
| DhcpServers.LeaseByMac | inet/src/applications/dhcp/DHCPServer.cc:427-442 | the lease found is the first of the client's, and none is found exactly if it has none |
| DhcpServers.DHCPServer.GetLeaseByMac | inet/src/applications/dhcp/DHCPServer.cc:427-442 | the walk through the map finds that lease |
| DhcpServers.DHCPServer.GetAvailableLease | inet/src/applications/dhcp/DHCPServer.cc:444-485 | the table and the address of the search, the requested address included |
| DhcpServers.ScanFinds | inet/src/applications/dhcp/DHCPServer.cc:463-484 | the address found is the first of the pool not in use; none is found only if all are in use |
| DhcpServers.DHCPServer.SendOffer | inet/src/applications/dhcp/DHCPServer.cc:385-425 | offers the lease's own address to its own client under the latest transaction, and stamps the lease |
| DhcpServers.DHCPServer.ProcessDHCPMessage | inet/src/applications/dhcp/DHCPServer.cc:169-320 | table and reply are those of the server's step, for every message |
| DhcpServers.TableStaysOk | inet/src/applications/dhcp/DHCPServer.cc:169-320 | every message keeps entries under their own address and no client with two |
| DhcpServers.OwnersKeptUnlessStolen | inet/src/applications/dhcp/DHCPServer.cc:189-461 | a message leaves every address with its owner if and only if it is not a newcomer's discover that asks for an address in the table |
| DhcpServers.RepliesAreTrue | inet/src/applications/dhcp/DHCPServer.cc:322-425 | a reply has the transaction id of its message; an offer or acknowledgement names an address and its holder; an offer goes to the asker; times are 0.5 and 0.875 of the lease |
| DhcpServers.KnownClientKeepsAddress | inet/src/applications/dhcp/DHCPServer.cc:210-216 | a client the table knows is offered the address it has |
| DhcpServers.OfferUnlessExhausted | inet/src/applications/dhcp/DHCPServer.cc:195-208 | a newcomer without wishes gets no offer exactly when the whole pool is in the table |
| DhcpServers.RebootIsNeverRefused | inet/src/applications/dhcp/DHCPServer.cc:258-285 | a rebooting client is confirmed if its address is known and ignored if not; the refusal there cannot happen |
| DhcpLaws.ReplyFields | inet/src/applications/dhcp/DHCPServer.cc:322-425 | every reply names this server and its message's transaction, and a refusal nothing else |
| DhcpLaws.RefusedIff | inet/src/applications/dhcp/DHCPServer.cc:219-305 | a request is refused if and only if it names this server and its sender does not own the address asked for, or it names another server and gives an address in use that is not in the table |
| DhcpLaws.ConfirmedIff | inet/src/applications/dhcp/DHCPServer.cc:219-305 | exactly which requests are confirmed, and for which address |
| DhcpLaws.OfferedIs | inet/src/applications/dhcp/DHCPServer.cc:189-216 | a discover is offered its sender's own address, else the one asked for, else the first free one of the pool, and nothing only if there is none |
| DhcpLaws.TableAfter | inet/src/applications/dhcp/DHCPServer.cc:189-425 | the table changes only at the address offered or confirmed, and what that entry then says |
| DhcpClients.DHCPClient.SendDiscover | inet/src/applications/dhcp/DHCPClient.cc:627-657 | draws a transaction id and sends a discover that asks for no address; an error before the socket is ready |
| DhcpClients.DHCPClient.SendRequest | inet/src/applications/dhcp/DHCPClient.cc:566-625 | the request of each state, and the errors for other states and a missing lease |
| DhcpClients.DHCPClient.InitClient | inet/src/applications/dhcp/DHCPClient.cc:402-414 | all timers off but the wait for an offer, a discover sent, SELECTING |
| DhcpClients.DHCPClient.InitRebootedClient | inet/src/applications/dhcp/DHCPClient.cc:416-421 | a request for the known address, a wait for its answer, REBOOTING |
| DhcpClients.DHCPClient.RecordOffer | inet/src/applications/dhcp/DHCPClient.cc:295-313 | an offer with an address replaces the lease, one without changes nothing |
| DhcpClients.DHCPClient.RecordLease | inet/src/applications/dhcp/DHCPClient.cc:315-340 | the times of an acknowledgement with an address are recorded |
| DhcpClients.DHCPClient.HandleDHCPACK | inet/src/applications/dhcp/DHCPClient.cc:680-687 | timers by the recorded times and the address bound, or an error without a lease |
| DhcpClients.DHCPClient.HandleDHCPMessage | inet/src/applications/dhcp/DHCPClient.cc:423-537 | state, timers, lease, address and messages sent are those of the client's step, or its error |
| DhcpClients.DHCPClient.HandleTimer | inet/src/applications/dhcp/DHCPClient.cc:232-293 | the same for each of the five timers |
| DhcpClients.DHCPClient.ReceiveAssociation | inet/src/applications/dhcp/DHCPClient.cc:545-558 | the process starts again if the interface is the client's |
| DhcpLaws.StartingAnew | inet/src/applications/dhcp/DHCPClient.cc:250-258 | each response timeout, end of a lease, association, start without a lease and refusal sends exactly one message, a discover of the client's own under the new id, and waits a minute for an offer; the end of a lease and a refusal in RENEWING or REBINDING leave no address configured |
| DhcpLaws.AskingForLease | inet/src/applications/dhcp/DHCPClient.cc:260-278 | what T1, T2 and a restart ask for, as in the table of section 4.3.6 of RFC 2131, and which timers stay |
| DhcpLaws.TakingOffer | inet/src/applications/dhcp/DHCPClient.cc:443-453 | an offer in SELECTING is asked for by its address from its server |
| DhcpLaws.TakingConfirmation | inet/src/applications/dhcp/DHCPClient.cc:462-533 | a confirmation binds the address recorded and sets the timers by its own times |
| DhcpLaws.OtherMessage | inet/src/applications/dhcp/DHCPClient.cc:423-537 | any other message changes nothing |
| DhcpLaws.NodeEvent | inet/src/applications/dhcp/DHCPClient.cc:727-775 | a start is scheduled for the start time or now, and a shutdown or crash keeps the lease and the state only |
| DhcpNetwork.MessageKeeps | inet/src/applications/dhcp/DHCPClient.cc:423-537 | no message the network can hold makes an orderly client throw, or leaves it out of order |
| DhcpNetwork.StepKeeps | inet/src/applications/dhcp/DHCPClient.cc:232-779 | every event keeps a client in order, and the only error is an association reported before the socket is ready |
| DhcpNetwork.ServerKeepsInv | inet/src/applications/dhcp/DHCPServer.cc:169-320 | a message at the server keeps the network's invariant |
| DhcpNetwork.ClientKeepsInv | inet/src/applications/dhcp/DHCPClient.cc:232-779 | so does any event at any client |
| DhcpNetwork.RunInv | inet/src/applications/dhcp/DHCPClient.cc:423-537 | the invariant holds throughout every run: offers are true and go to their asker, clients hold only what they own |
| DhcpNetwork.AddressesAreUnique | inet/src/applications/dhcp/DHCPServer.cc:169-320 | section 1.6 of RFC 2131: in every reachable state a recorded or configured address is in the table under the hardware address that its client has taken down, and no two clients that have taken down different ones share an address, whatever is lost, repeated, reordered, crashed or restarted |
| DhcpRuns.UniqueIffDistinctMacs | inet/src/applications/dhcp/DHCPClient.cc:50-107 | no two clients share an address in any run from a start if and only if there no two have taken down the same hardware address, or the pool is empty |
| DhcpRuns.EqualMacsShare | inet/src/applications/dhcp/DHCPClient.cc:727-755 | from any start with two equal addresses taken down and a pool that is not empty there is a run in which those two clients share a configured address |
| DhcpRuns.DistinctIffOneDown | inet/src/applications/dhcp/DHCPClient.cc:98-104 | with interfaces that have different addresses, none 0, the addresses taken down differ if and only if at most one node is down at the start |
| DhcpRuns.TwoDownShare | inet/src/applications/dhcp/DHCPClient.cc:98-104 | two clients with different interfaces whose nodes are down at the start come to have the same address configured |
| DhcpNetwork.ErrorsUnreachable | inet/src/applications/dhcp/DHCPClient.cc:279-624 | "T2 occurred in wrong state", "Invalid state", an unknown state, a missing lease and a second binding of the port never occur in a reachable state |
| DhcpRuns.AssociatedTooEarly | inet/src/applications/dhcp/DHCPClient.cc:545-558 | a reachable state in which an association is an error |
| DhcpNetwork.TimersInOrder | inet/src/applications/dhcp/DHCPClient.cc:260-283 | in every reachable state a running T1 means BOUND, and a running T2 means RENEWING or BOUND with an earlier T1; a lease with an address is there wherever a request may read it |
| DhcpNetwork.NeverStuck | inet/src/applications/dhcp/DHCPClient.cc:232-293 | in every reachable state a client bound to its port has T1 running if it is BOUND and a response timeout running otherwise, and one that is up but not yet bound has its start timer running |
| DhcpNetwork.OfferedAddressIsBound | inet/src/applications/dhcp/DHCPClient.cc:402-467 | an answered discover leads, when nothing is lost, to the offered address bound and owned by the client in the table |
| DhcpNetwork.RenewalExtends | inet/src/applications/dhcp/DHCPClient.cc:260-487 | when T1 expires and nothing is lost, the same address is bound again with all timers from now on |
| DhcpNetwork.AddressExpiresUnlessForgotten | inet/src/applications/dhcp/DHCPClient.cc:250-278 | an event leaves a configured address under its lease timer if and only if it is not a second timer, response timeout or association, which cancel the timer and keep the address |
| DhcpNetwork.AddressExpiresWhile | inet/src/applications/dhcp/DHCPClient.cc:250-414 | in every reachable state a configured address is under its lease timer if and only if the client is BOUND or RENEWING |
| DhcpNetwork.AddressesExpireInRuns | inet/src/applications/dhcp/DHCPClient.cc:250-414 | throughout a run every configured address is under its lease timer if and only if no action of the run forgets one |
| DhcpRuns.AddressOutlivesTimer | inet/src/applications/dhcp/DHCPClient.cc:250-266 | a run of bind, T1 and response timeout that ends in SELECTING with the address configured and the lease timer off |
| Lehmer.Generator.GetLcgRandomNumber | Projekt2/Sender.cc:28-34 | the draw is the next state of the generator, between 1 and 2^31 - 2, and the product fits a long long |
| Lehmer.Generator.UniformDist | Projekt2/Sender.cc:39-43 | the draw scaled, strictly between the bounds |
| Lehmer.StateInRange | Projekt2/Sender.cc:28-34 | no state is 0 or above 2^31 - 2 |
| Lehmer.StepIsPermutation | Projekt2/Sender.cc:30-31 | the step is a bijection of 1 to 2^31 - 2 |
| Lehmer.UndoStep | Projekt2/Sender.cc:30-31 | the multiplier 1407677000 takes a step back |
| Lehmer.NoPrimeFactorLeft | Projekt2/Sender.cc:28-34 | the first return to the seed leaves out no prime factor of 2^31 - 2 |
| Lehmer.PeriodIsFirstReturn | Projekt2/Sender.cc:28-34 | the seed comes back after 2^31 - 2 draws and not before |
| Lehmer.StateRepeats | Projekt2/Sender.cc:28-34 | the sequence repeats with that period |
| Lehmer.FullPeriod | Projekt2/Sender.cc:28-34 | each value from 1 to 2^31 - 2 is drawn at exactly one place of a period |
| SignedInt128.Int128.Negate | inet/src/util/int128.cc:167-173 | the negative modulo 2^128, by words |
| SignedInt128.Int128.AddAssign | inet/src/util/int128.cc:209-219 | the sum modulo 2^128, the carry taken from the wrapped low word, the object added to itself included |
| SignedInt128.Int128.SubAssign | inet/src/util/int128.h:128-131 | the difference modulo 2^128 |
| SignedInt128.Int128.ShlAssign | inet/src/util/int128.cc:363-394 | multiplication by a power of two modulo 2^128 in all four ranges of the count |
| SignedInt128.Int128.ShrAssign | inet/src/util/int128.cc:329-361 | division by a power of two rounded down, for every sign and count |
| SignedInt128.Int128.GetBit | inet/src/util/int128.cc:300-309 | the bit of the two's complement form, continued to the left by the sign |
| SignedInt128.Int128.SetBit | inet/src/util/int128.cc:311-326 | the number changes by that power of two modulo 2^128 exactly if the bit differs |
| SignedInt128.Int128.MulAssign | inet/src/util/int128.cc:221-243 | the product modulo 2^128 of any two operands, the same object included |
| SignedInt128.Int128.LongDivision | inet/src/util/int128.cc:263-290 | both loops end, no shift overflows, and quotient and remainder are those of the positive operands, while the unsigned counter wraps round |
| SignedInt128.Int128.Div | inet/src/util/int128.cc:246-298 | quotient truncated and remainder with the dividend's sign for every dividend but -2^127, for which quotient 0 and that remainder are stated |
| SignedInt128.DivisorMinReachesLoop | inet/src/util/int128.cc:253-275 | for every dividend there is no early return, and the first loop does no round |
| SignedInt128.DividedUniquely | inet/src/util/int128.cc:246-298 | these conditions fix quotient and remainder |
| SignedInt128.DivisorMinNeverEnds | inet/src/util/int128.cc:276-290 | and in the second loop the remainder is then never below the divisor, so no round is the last |
| SignedInt128.Int128.ToString | inet/src/util/int128.cc:37-61 | the numeral in every radix up to 37, within the 256 characters |
| SignedInt128.Int128.Set | inet/src/util/int128.cc:63-112 | the number that the accepted digits write, modulo 2^128 |
| SignedInt128.PrintedIsParsed | inet/src/util/int128.cc:37-112 | printing and parsing in decimal, in hexadecimal with 0x and in octal with 0 gives the number back if and only if it is not -2^127 |
| Numerals.ReadNumeral | inet/src/util/int128.cc:71-106 | reading undoes writing for all integers |
| Numerals.DigitCharIs | inet/src/util/int128.cc:45-56 | digits are printed as capitals |
| Numerals.DigitIsWorth | inet/src/util/int128.cc:91-100 | in radix 8, 10 and 16 a character is worth its place in the list of digits, in either case, and counts if that is below the radix, or equal to it for a letter |
| Numerals.LetterTooFar | inet/src/util/int128.cc:89-106 | a decimal numeral that goes on over a letter |
| Words128.Carry | inet/src/util/int128.cc:211-216 | the carry out of the low word shows as a sum below one of its terms |
| Words128.LessIsOrder | inet/src/util/int128.cc:396-407 | the comparison is that of the numbers if and only if the operands are not two negatives with equal high words and low words on different sides of 2^63 |
| PatternMatching.PatternMatcher.ParseNumRange | inet/src/util/PatternMatcher.cc:156-183 | succeeds exactly on a range, with its limits and its end |
| PatternTexts.RangeReads | inet/src/util/PatternMatcher.cc:156-183 | any range as it is written, with either number left out, is read with its own limits |
| PatternMatching.PatternMatcher.ParseSet | inet/src/util/PatternMatcher.cc:98-137 | the set that the text has there, in upper case if case is not to matter, or the error of a missing brace |
| PatternTexts.SetReads | inet/src/util/PatternMatcher.cc:107-136 | any list of characters and ranges as it is written between braces is read as those |
| PatternTexts.SetCovers | inet/src/util/PatternMatcher.cc:209-221 | a character is in the set kept if and only if one of the items written covers it |
| PatternMatching.PatternMatcher.ParseLiteralString | inet/src/util/PatternMatcher.cc:139-154 | the run of literal characters up to a wildcard or a range, or reading past a lone backslash |
| PatternMatching.PatternMatcher.SetPattern | inet/src/util/PatternMatcher.cc:50-96 | ends for every text, and keeps the text's units with neighbouring literals joined, sets in upper case if case is not to matter, opened for substring matches; or says which error stops it |
| PatternTexts.RunIsMerged | inet/src/util/PatternMatcher.cc:139-154 | the literal gathered is the joining of the units it covers |
| PatternMatching.PatternMatcher.IsInSet | inet/src/util/PatternMatcher.cc:209-221 | a character, in upper case if case is not to matter, is in a set if and only if it is in one of its ranges |
| PatternMatching.PatternMatcher.DoMatch | inet/src/util/PatternMatcher.cc:223-314 | ends, and is true if and only if the rest of the line can be cut into pieces for the rest of the pattern, as both are compared and with the last literal shortened, and the line ends in a literal behind a final "**" exactly |
| PatternMatching.PatternMatcher.MatchAfterSeq | inet/src/util/PatternMatcher.cc:287-305 | the loops over where a sequence ends miss no place |
| PatternMatching.SuffixRest | inet/src/util/PatternMatcher.cc:283-284 | at a final sequence and literal it is enough that the input ends in the literal |
| PatternMatching.ShortcutRest | inet/src/util/PatternMatcher.cc:283-284 | in every mode the shortcut is the rest of the pattern together with the exact ending |
| PatternMatching.LastLiteral | inet/src/util/PatternMatcher.cc:326-338 | a matching line ends in the pattern's last literal, so the test of two characters refuses no match |
| PatternMatching.PatternMatcher.Matches | inet/src/util/PatternMatcher.cc:316-342 | true if and only if the line is in the language of the tokens, as both are compared, and ends exactly in a literal behind a final "**" |
| PatternMatching.PatternMatcher.PatternPrefixMatches | inet/src/util/PatternMatcher.cc:344-369 | the rest behind the first place of the suffix in the last literal, if and only if the tokens without that rest match the line |
| Patterns.SpansIffCut | inet/src/util/PatternMatcher.h:35-44 | that language is: lines that can be cut into one piece per element, numbers being whole runs of digits |
| Patterns.MergedSpans | inet/src/util/PatternMatcher.cc:139-154 | joining literals changes no language |
| Patterns.OpenedLanguage | inet/src/util/PatternMatcher.cc:83-92 | opening both ends matches exactly the lines with a matching stretch |
| PatternMeaning.TokensMean | inet/src/util/PatternMatcher.cc:50-96 | the tokens kept match a line if and only if the text, read unit by unit, is for it, in full-string and substring mode |
| PatternMeaning.MatchText | inet/src/util/PatternMatcher.cc:41-342 | a text and a line put together, in all modes: true if and only if the line is in the language of the text's units, with or without regard to case, and ends exactly in a literal behind a final "**", which with regard to case is no further demand; or the error that stops the text |
| PatternGlyphs.TextMeans | inet/src/util/PatternMatcher.h:34-58 | a text of the documented constructs, none taken for another, is for the lines that fall into what these stand for, in dotted-path mode or not, with or without regard to case, in full or as a substring |
| PatternGlyphs.SetMeans | inet/src/util/PatternMatcher.h:39-40 | a set in braces matches a single character that one of its items covers, and with a caret one that none covers |
| PatternMeaning.MatchGlyphs | inet/src/util/PatternMatcher.cc:41-342 | the answer for a text written in the documented syntax is what its constructs stand for, in every mode; without regard to case only with the literal end that a final "**" and literal ask for |
| PatternMeaning.RightUnlessCaseTrap | inet/src/util/PatternMatcher.cc:279-284 | without regard to case a full-string matcher is right for every line if and only if its text does not end in "**" and a literal with a letter behind something that matches |
| PatternMeaning.CaseTrapExample | inet/src/util/PatternMatcher.cc:279-284 | without regard to case "**a" is for "A", and the answer is no |
| PatternModes.SetIgnoresCase | inet/src/util/PatternMatcher.cc:125-130 | an item of a set in upper case covers what it covers in any case, if it does not mix letters and others |
| PatternMeaning.PrefixExpands | inet/src/util/PatternMatcher.h:144-159 | for all other patterns, and a suffix that is not empty, a prefix match is answered with the rest if and only if the pattern matches the line followed by that rest |
| PatternMeaning.StarPrefixIsWhole | inet/src/util/PatternMatcher.cc:279-284 | a prefix match with a literal behind a final "**" needs the whole literal in the line |
| PatternMeaning.StarPrefixExample | inet/src/util/PatternMatcher.cc:279-284 | a prefix match that is refused though the rest would complete the line |
| PatternMeaning.LaterPlaceExample | inet/src/util/PatternMatcher.cc:361-368 | a prefix match that is refused though it matches at a later place of the suffix |
| PatternMeaning.WildcardFree | inet/src/util/PatternMatcher.cc:370-375 | a text without wildcards matches itself only, and as a substring the lines it occurs in |
| PatternMeaning.EscapingWorks | inet/src/util/PatternMatcher.h:44 | with every character escaped a text matches itself only, whatever it is |
| PatternMeaning.EscapeHolds | inet/src/util/PatternMatcher.cc:146-151 | an escaped character stands for itself if and only if it is not a bracket that opens a range |
| PatternMeaning.EscapedBracketMatches | inet/src/util/PatternMatcher.cc:146-151 | an escaped bracket with a range matches a number |
| Machines.Machine.Exit | inet/src/util/Macho.cc:157-175 | exit actions and box deletions from a state upwards |
| Machines.Machine.Entry | inet/src/util/Macho.cc:139-155 | entry actions and box creations down to a state |
| Machines.Machine.SetHistorySuper | inet/src/util/Macho.h:743-748 | the histories recorded by all superstates |
| Machines.Machine.SaveHistory | inet/src/util/Macho.h:275-296 | the same from one superstate on, by its strategy |
| Machines.Machine.Init | inet/src/util/Macho.cc:177-191 | goes to the history if asked and there, else to what the init action says; the history is cleared either way |
| Machines.Machine.Transit | inet/src/util/Macho.cc:359-410 | one transition with exits, history, entries and init |
| Machines.Machine.RattleOn | inet/src/util/Macho.cc:352-422 | ends, with the configuration after the transition and all that init actions and histories add |
| Machines.Machine.Start | inet/src/util/Macho.cc:258-266 | enters the start state from Root |
| Machines.Machine.Shutdown | inet/src/util/Macho.cc:278-288 | leaves every state by going to Root |
| Machines.Machine.ClearHistoryDeep | inet/src/util/Macho.cc:310-318 | clears the history of the state and its substates and of no other |
| StateMachines.ExitsAre | inet/src/util/Macho.cc:157-175 | the states exited are exactly those on the old chain that are the target or not above it, innermost first |
| StateMachines.EntriesAre | inet/src/util/Macho.cc:139-155 | the states entered are exactly those on the new chain that are the target or not above the old state, outermost first |
| StateMachines.StopsMeet | inet/src/util/Macho.cc:139-175 | exits stop at the state where entries begin |
| StateMachines.TransitionReplays | inet/src/util/Macho.cc:369-387 | self, upward, downward and sideways transitions all lead from the old chain to the new one, as a stack |
| StateMachines.BoxWhileActive | inet/src/util/Macho.h:924-934 | a state with a plain box has it exactly while it is active, so a deletion finds it |
| StateMachines.BoxStays | inet/src/util/Macho.h:924-934 | any other box is there from the first entry on |
| StateMachines.EntriesBalance | inet/src/util/Macho.cc:139-175 | a state has been entered as often as exited, once more if active |
| MachineSteps.SavedIs | inet/src/util/Macho.h:275-296 | exactly the superstates with a history strategy record: deep ones the state left, shallow ones their direct substate |
| MachineSteps.SavedOk | inet/src/util/Macho.h:275-296 | a recorded history is always a proper substate |
| MachineSteps.PendingIsProper | inet/src/util/Macho.cc:397-403 | what is pending after an init is a proper substate, also when it comes from history: the source's assertion, and why the chain ends |
| MachineSteps.TransitionGoes | inet/src/util/Macho.cc:369-399 | a transition leads to its target, records the histories of the states left and of no other, and uses up the target's own, unless its init takes parameters |
| MachineSteps.InitIsObeyed | inet/src/util/Macho.cc:177-191 | what comes next is the history recorded, if asked for and there, and otherwise what the target's init action asks for after all exits and entries |
| MachineSteps.RattleRests | inet/src/util/Macho.cc:352-403 | a transition with all that follows ends where the init action asks for nothing |
| MachineSteps.RunIsConsistent | inet/src/util/Macho.cc:352-422 | over every run the states entered and not yet exited are the current state's chain below Root |
| MachineSteps.ShutdownExitsAll | inet/src/util/Macho.cc:278-288 | after a shutdown every entry has had its exit |
| MachineSteps.RattleIsMoves | inet/src/util/Macho.cc:359-410 | a transition with all that follows is a sequence of single moves, each to exactly what the move before leaves pending, and each deeper than the one before |
| MachineSteps.HistoryRestored | inet/src/util/Macho.cc:177-191 | a state left from a substate remembers it through any moves outside, and a history transition goes next to it (deep) or to the direct substate on the way (shallow) |
| Reassembly.ReassemblyBuffer.AddFragment | inet/src/base/ReassemblyBuffer.cc:39-45 | for arbitrary, even overlapping ranges: true implies that every offset below the total was received, and a last fragment |
| Reassembly.ReassemblyBuffer.Merge | inet/src/base/ReassemblyBuffer.cc:47-81 | nothing received is lost, and nothing set aside could be used |
| Reassembly.ReassemblyBuffer.MergeFragments | inet/src/base/ReassemblyBuffer.cc:83-128 | ends, and leaves nothing aside that is adjacent or already there |
| Reassembly.PiecesInAnyOrder | inet/src/base/ReassemblyBuffer.cc:39-128 | for any split, order and duplicates: the stretch is the longest prefix of arrived pieces, aside are exactly those beyond it, and it is complete exactly when all have arrived, with the full length |
| Reassembly.OrderDoesNotMatter | inet/src/base/ReassemblyBuffer.cc:39-128 | two buffers given the same pieces agree |
| LifecycleControllers.LifecycleController.HandleStage | inet/src/base/LifecycleController.cc:116-129 | one module's turn; a callback waits exactly if the module did not complete, and the spare one never waits |
| LifecycleControllers.LifecycleController.DoOneStage | inet/src/base/LifecycleController.cc:114-136 | the modules of a tree handle the stage once each, in preorder |
| LifecycleControllers.LifecycleController.ResumeOperation | inet/src/base/LifecycleController.cc:94-112 | stage, waiting modules and log are those of the step that goes on until a stage is left pending or all is done, and that notifies only if not called from the initiation |
| LifecycleControllers.LifecycleController.InitiateOperation | inet/src/base/LifecycleController.cc:85-92 | the operation is that of the step from the first stage on; true means finished without a notification, false pending |
| LifecycleControllers.LifecycleController.ModuleOperationStageCompleted | inet/src/base/LifecycleController.cc:138-156 | any pending module may complete, and the operation is that of the step: its log goes on, and the last module takes it to the next stage |
| LifecycleEvents.HandledOnceInOrder | inet/src/base/LifecycleController.cc:114-136 | each started stage is handled by each module exactly once, in preorder, and later stages by nobody |
| LifecycleEvents.Barrier | inet/src/base/LifecycleController.cc:94-106 | no module handles a stage before all have finished the one before |
| LifecycleEvents.NotifiedOnce | inet/src/base/LifecycleController.cc:108-110 | at most one notification, and only with every stage finished by all |
| LifecycleEvents.AllDone | inet/src/base/LifecycleController.cc:85-156 | a finished operation has had every module handle and finish every stage |
| LifecycleEvents.PreorderIs | inet/src/base/LifecycleController.cc:114-136 | the order of a stage lists every participating module once, each before those inside it and before its later siblings |
| LifecycleEvents.RefusingAre | inet/src/base/LifecycleController.cc:116-129 | the modules left waiting by a stage are exactly those that do not complete it at once, each once |
| LifecycleEvents.CompleteInOrder | inet/src/base/LifecycleController.cc:138-156 | a completion keeps that discipline and puts its own event behind the log there was |
| LifecycleEvents.RunInOrder | inet/src/base/LifecycleController.cc:85-156 | over every run of an initiation and completions the log keeps the stage discipline and says where the operation is |
| LifecycleEvents.NotifiedAtTheEnd | inet/src/base/LifecycleController.cc:108-156 | through any completions the log only grows, and there is exactly one notification once nobody is pending after an initiation that returned false, none before, and none without a callback |
| LifecycleEvents.RunEndsDone | inet/src/base/LifecycleController.cc:85-156 | once nobody is pending, every module has handled every stage exactly once, in preorder, and finished it |
| LifecycleEvents.EndsAfter | inet/src/base/LifecycleController.cc:85-156 | a run is over exactly after as many completions as there were modules and stages that did not complete at once, in whatever order |
| ByteBuffers.ByteArray.CopyDataToBuffer | inet/src/base/ByteArray.cc:52-61 | copies what there is from the offset, at most the length, and leaves the rest of the buffer |
| ByteBuffers.CopyStaysInside | inet/src/base/ByteArray.cc:54-60 | the bytes taken lie in the chunk if and only if the 32-bit sum does not wrap round |
| ByteBuffers.ByteArray.TruncateData | inet/src/base/ByteArray.cc:70-87 | cuts bytes off at the left |
| ByteBuffers.ByteArrayBuffer.Push | inet/src/base/ByteArrayBuffer.cc:37-41 | the contents grow by a copy of the bytes |
| ByteBuffers.ByteArrayBuffer.PushBuffer | inet/src/base/ByteArrayBuffer.cc:43-49 | the same from a buffer |
| ByteBuffers.ByteArrayBuffer.GetBytesToBuffer | inet/src/base/ByteArrayBuffer.cc:51-71 | exactly the flat slice from the offset, across chunks, empty ones and offsets past the end |
| ByteBuffers.ByteArrayBuffer.PopBytesToBuffer | inet/src/base/ByteArrayBuffer.cc:73-76 | the first bytes are delivered and gone |
| ByteBuffers.ByteArrayBuffer.Drop | inet/src/base/ByteArrayBuffer.cc:78-103 | the contents lose their first bytes, and the length stays that of the contents |
| ByteBuffers.ByteArrayBuffer.Clear | inet/src/base/ByteArrayBuffer.cc:105-113 | empty |
| ByteBuffers.FirstInFirstOut | inet/src/base/ByteArrayBuffer.cc:37-103 | through any pushes and pops the bytes delivered and left are the bytes pushed, in order |

## Left out

- SignedInt128.Int128.Div: not for the divisor 0, where the program divides by zero, nor for -2^127, where it does not end.
- SignedInt128.Int128.ToString: the result is a value; that all calls share one static buffer is not captured.
- SignedInt128.Int128.Set: null pointers, and strings too long for a 32-bit index.
- PatternMatching.PatternMatcher.DoMatch: digit runs have unbounded values where `atol` would overflow, and only the letters of ASCII have two cases.
- PatternMeaning.MatchGlyphs: without regard to case, for sets whose ranges do not mix letters with others, as `inet/src/util/PatternMatcher.h:69-71` asks.
- PatternGlyphs.TextMeans: for the same sets, and for texts in which no construct is taken for another; `EscapeHolds` is about the one such case.
- PatternMatching.PatternMatcher.IsInSet: characters compare by code; the sign of C++ `char` beyond ASCII is left out.
- Machines.Machine.RattleOn: the inner loop; dispatching of queued events, whose handlers ask for further transitions, is represented by sequences of operations.
- ByteBuffers.ByteArrayBuffer.GetBytesToBuffer: for an offset within its chunk that does not wrap round with the length, as the copy of a chunk needs.
- ByteBuffers.ByteArray.CopyDataToBuffer: for an offset and a length whose sum does not wrap round, or an offset past the end; `CopyStaysInside` is about the others.
- ByteBuffers.ByteArray.TruncateData: cutting at the right, which the buffer does not do.
- Reassembly.ReassemblyBuffer.AddFragment: for ranges whose end is not before their beginning.
- Reassembly.ReassemblyBuffer.Merge: for the same ranges.
- LifecycleControllers.LifecycleController.InitiateOperation: for an operation with nobody pending.
- LifecycleControllers.LifecycleController.HandleStage: whether a module completes at once is a function of module and stage; completions during the walk and operations started by a handler are left out.
- Topology: building a graph from simulator modules, and links given by gates.
- DHCP: several servers, a server that is stopped, decline and release, the packet layout, routes, and the destination of messages (any client may receive any).
- Int128: floating-point conversions, increments, bitwise operators and assignment from built-in types.
- Sender: the exponential distribution and the rounding of floating point.
- Macho: templates, snapshots, aliases that stand for a history, and box contents.
- The other applications, tools and wrappers of the repository are input and output.
