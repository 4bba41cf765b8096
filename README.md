# Reactive L2 switch controllers: a verified model

Two OpenFlow 1.0 controllers for the POX runtime, modelled in Dafny.

- The **learning switch** (`p1/LearningSwitch.py`) keeps one MAC table per switch connection. On every packet-in it records the port the packet's source came in on. Then it sends exactly one message:
  - a drop (`ofp_packet_out` without actions) for LLDP and IPv6;
  - a flow install (`ofp_flow_mod` matching destination and source MAC, idle and hard timeouts of 30 s, output to the learned port, with the packet attached) when the destination's port is known;
  - a flood (`ofp_packet_out` to `OFPP_FLOOD`) otherwise.
- The **load-balancing switch** (`p2/LoadBalancingSwitch.py`) does the same. It also keeps two pieces of state shared by all switch connections:
  - a registry of which switch owns each host. A switch takes a host over when the host is unowned or its owner has not seen it for more than 30 s. The owner's own sightings renew the lease.
  - a counter that hands out synthetic MACs `03:13:37:xx:xx:xx`.
  
  An ARP packet whose target protocol address reads `10.123.…` is answered by the controller itself. The answer is an ARP reply that claims that address for a fresh synthetic MAC. It is sent back out of the ingress port, and no rule is installed.

Files:
- `packets.dfy` (module `Packets`): Ethernet frames, ARP messages, IPv4 addresses. It also holds the dotted-decimal text of an address and Python's `startswith` on it.
- `openflow.dfy` (module `OpenFlow`): ports, reserved port numbers, the packet-in notification, and the `Action` datatype (one value per message sent).
- `learning_switch.dfy` (module `Learning`): the learning switch.
- `load_balancing_switch.dfy` (module `LoadBalancing`): the allocator, the ownership registry, ARP interception and the load-balancing switch.

How the source maps to the model:
- Each switch connection is a class whose `HandlePacketIn` method updates its MAC table in place. The method returns the one message it sends, as an `Action`.
- Each handler is specified by two pure functions: `Learn` (the table update) and `Decide` (the message).
- Lemmas about those functions state what the source promises.
- `Learning.Session` folds `Learn` and `Decide` over a sequence of packet-ins. This models POX's in-order, one-at-a-time event dispatch.
- `LoadBalancing.TouchAll` folds the registry update `Touched` over the sightings of one host by any switches, in order.
- The allocator's counter and the `hostlocations` dictionary are objects (`MacAllocator`, `HostRegistry`). One instance of each is shared by every `LoadBalancingSwitch`.

Two behaviours of the code that are easy to misread:
- The code intercepts an ARP message of *any* opcode aimed at a target, not only requests (p2/LoadBalancingSwitch.py:71 tests only the target address).
- The allocator's MACs are pairwise distinct for the first 2^24 calls, the 2^24-th included. Value 2^24 has low bits 0, which no earlier call produced. Call 2^24 + 1 is the first repeat.

## Model

| member | source | states |
|---|---|---|
| `Packets.Decimal` | p2/LoadBalancingSwitch.py:71 | the text of an address octet is a non-empty string of decimal digits (so it holds no dot) |
| `Packets.DecimalInjective` | p2/LoadBalancingSwitch.py:71 | distinct numbers have distinct decimal texts |
| `Packets.DecimalFieldPrefix` | p2/LoadBalancingSwitch.py:71 | "numeral of n, dot, rest" starts with "numeral of m, dot, q" exactly when m = n and rest starts with q |
| `Packets.DottedQuadStartsWith10123` | p2/LoadBalancingSwitch.py:71 | the text of an IPv4 address starts with "10.123." exactly when its first two octets are 10 and 123 |
| `Learning.Learn` | p1/LearningSwitch.py:31-32 | after learning, the source maps to its ingress port whatever it mapped to before; no other entry changes; keys only grow |
| `Learning.LearnUnchangedIff` | p1/LearningSwitch.py:31-32 | the table is left as it was exactly when it already maps the source to that port |
| `Learning.LearnIdempotent` | p1/LearningSwitch.py:31-32 | seeing the same (source, port) twice leaves the table as after the first time |
| `Learning.PacketInOutcome` | p1/LearningSwitch.py:31-68 | in terms of the table before the packet: LLDP/IPv6 gives Drop(buffer, in_port) whatever the table holds; a packet to itself installs a rule back to its ingress port; a known destination installs a (dst, src) rule to its port with both timeouts 30; otherwise Flood(buffer, in_port) |
| `Learning.Session` | p1/LearningSwitch.py:25-68 | handling a sequence of packet-ins sends exactly one message per packet-in and loses no table entry |
| `Learning.SessionLearnsLastPort` | p1/LearningSwitch.py:31-32 | after a session, a host is in the table exactly when it was before or sent a packet, and it maps to the ingress port of its latest packet |
| `Learning.SessionAnswersInOrder` | p1/LearningSwitch.py:25-68 | the i-th message of a session is the decision for the i-th packet-in on the table that has learned packets 0..i |
| `Learning.LearningSwitch.constructor` | p1/LearningSwitch.py:19-23 | a new switch connection starts with an empty MAC table |
| `Learning.LearningSwitch.HandlePacketIn` | p1/LearningSwitch.py:25-68 | the table becomes Learn(old table, src, in_port) and the message is the decision on the updated table |
| `Learning.EndToEnd` | p1/LearningSwitch.py:31-68 | A→B with B unknown floods; then B→A installs (dst A, src B) toward A's port learned from the first packet |
| `LoadBalancing.SyntheticMac` | p2/LoadBalancingSwitch.py:21-24 | the top 24 bits of an allocated MAC are 0x031337 and its low 24 bits are the counter's low 24 bits |
| `LoadBalancing.SyntheticMacEqualIff` | p2/LoadBalancingSwitch.py:24 | two counter values give the same MAC exactly when their low 24 bits agree |
| `LoadBalancing.Issued` | p2/LoadBalancingSwitch.py:21-25 | n calls from the initial counter 1 return n MACs |
| `LoadBalancing.IssuedAt` | p2/LoadBalancingSwitch.py:21-25 | the k-th call (k from 1) returns the MAC of counter value k |
| `LoadBalancing.IssuedDistinct` | p2/LoadBalancingSwitch.py:21-25 | up to 2^24 calls return pairwise distinct MACs |
| `LoadBalancing.IssuedRepeatsAfterWrap` | p2/LoadBalancingSwitch.py:24 | call 2^24 + 1 returns the same MAC as call 1 (wrap-around is unhandled) |
| `LoadBalancing.MacAllocator.constructor` | p2/LoadBalancingSwitch.py:25 | the counter starts at 1 with nothing handed out |
| `LoadBalancing.MacAllocator.Next` | p2/LoadBalancingSwitch.py:21-24 | returns the MAC of the current counter and raises the counter by exactly 1; within the first 2^24 calls that MAC was never handed out before |
| `LoadBalancing.Touched` | p2/LoadBalancingSwitch.py:45-50 | if the host is unowned, its entry has expired (strictly older than 30 s) or this switch owns it, the entry becomes (this switch, now); otherwise the registry is unchanged; other hosts are never touched |
| `LoadBalancing.ExpiryBoundary` | p2/LoadBalancingSwitch.py:45 | an entry exactly 30 s old still holds against another switch; one microsecond older, the other switch takes the host |
| `LoadBalancing.OwnerKeepsHostWhileFresh` | p2/LoadBalancingSwitch.py:45-50 | over any sequence of sightings that each come within 30 s of the owner's latest sighting, the host never changes owner and its entry ends at the owner's latest sighting |
| `LoadBalancing.HostRegistry.constructor` | p2/LoadBalancingSwitch.py:124 | the shared registry starts empty |
| `LoadBalancing.HostRegistry.Touch` | p2/LoadBalancingSwitch.py:45-50 | the registry becomes Touched(old registry, host, switch, now) |
| `LoadBalancing.LoadBalanceTargetOctets` | p2/LoadBalancingSwitch.py:71 | the "10.123." text test on the target address is the test first octet = 10 and second octet = 123 |
| `LoadBalancing.LoadBalanceTargetExamples` | p2/LoadBalancingSwitch.py:71 | 10.123.5.9 is a load-balance target and 10.200.0.1 is not |
| `LoadBalancing.InterceptsIff` | p2/LoadBalancingSwitch.py:58-71 | a packet is intercepted exactly when it is not LLDP/IPv6 and carries ARP (any opcode) for an address 10.123.x.y |
| `LoadBalancing.ReplyToReply` | p2/LoadBalancingSwitch.py:77-86 | replying to the reply with the asker's MAC gives back the original message as a reply to the fresh MAC (swapping sender and target is its own inverse) |
| `LoadBalancing.AgreesWithLearningSwitch` | p2/LoadBalancingSwitch.py:58-118 | without interception the message is the learning switch's; LLDP/IPv6 are dropped even when they carry ARP for a target |
| `LoadBalancing.InterceptedReply` | p2/LoadBalancingSwitch.py:70-93 | an intercepted packet gets a packet-out with in_port OFPP_NONE, output to its ingress port, carrying a frame from the fresh MAC to the asker with the original ether type; the ARP reply copies hwtype/prototype/hwlen/protolen, has opcode REPLY, hwsrc = fresh MAC, hwdst = asker's hwsrc, protosrc = asked address, protodst = asker's protosrc; the MAC table plays no part |
| `LoadBalancing.LoadBalancingSwitch.constructor` | p2/LoadBalancingSwitch.py:31-36 | a switch connection starts with an empty table and holds the shared registry and allocator |
| `LoadBalancing.LoadBalancingSwitch.HandlePacketIn` | p2/LoadBalancingSwitch.py:38-118 | registry becomes Touched(…, src, this switch, now); table becomes Learn(…); the message is Decide on the new table and the old counter, never on the registry; the allocator advances by one exactly when the packet is intercepted, and the MAC it returns is new within its first 2^24 calls |
| `LoadBalancing.SharedRegistryScenario` | p2/LoadBalancingSwitch.py:45-50 | with one shared registry, switch 1 owns a host it saw at t; switch 2 seeing it at t + 30 s leaves it with switch 1; switch 2 seeing it one microsecond later takes it |
| `LoadBalancing.SharedAllocatorScenario` | p2/LoadBalancingSwitch.py:70-93 | interceptions on two switches sharing the allocator answer with the MACs of counter values 1 and 2, which differ |

## Left out

- POX bootstrap and event wiring (`listenTo`, `core.registerNew`, `launch`, `learning_switch`, `load_balancing_switch`, `_handle_ConnectionUp`): runtime plumbing. Creating a switch object per connection is the class constructor, and the shared registry and allocator are passed to it.
- `connection.send`: the handler returns the message as an `Action` value instead of sending it.
- `event.parse()`, `packet.find('arp')` and `reply_eth.pack()`: byte-level encoding and decoding belong to the POX packet library. A packet-in arrives already parsed. Its `arp` field is what the search for an ARP payload finds. The reply frame is kept as a value, not as bytes.
- `datetime.now()` and `timedelta`: the clock is a `now` parameter in microseconds. The source reads the clock up to twice per packet; the model reads it once.
- `log.debug`: it has no effect on behaviour.
- `EthAddr("031337%06x" % …)`: the hex formatting is replaced by the arithmetic it encodes, prefix·2^24 + low 24 bits.
- Concurrency around the shared registry and the counter: POX dispatches events one at a time, so each packet-in is one atomic step.
- Field widths of the ARP header (`hwtype`, `prototype`, `hwlen`, `protolen`, `opcode`) are unbounded naturals. They are only copied.
- `event.port` and `event.ofp.in_port` are the same value in POX, so the model has one ingress-port field.
- The load-balancing switch's MAC-table update and LLDP/IPv6 test are the learning switch's, reused from module `Learning`. The two source files contain the same code for them.
