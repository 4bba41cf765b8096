/** The load-balancing variant of the learning switch. Beside the per-switch
    MAC table it keeps two pieces of state shared by every switch of the
    controller: a registry recording which switch owns (first sees) each host,
    with a lease that lapses after 30 seconds of silence, and a counter that
    hands out synthetic MAC addresses. ARP packets asking for an address in
    10.123.0.0/16 are answered by the controller itself with a fresh
    synthetic MAC, so that load-balanced traffic is easy to recognise. */
module LoadBalancing {
  import opened Packets
  import opened OpenFlow
  import Learning

  const LOADBALANCE_TARGET: string := "10.123."

  const HARD_TIMEOUT: nat := 30
  const IDLE_TIMEOUT: nat := 30

  // ---------------------------------------------------------------------
  // Synthetic MAC allocator
  // ---------------------------------------------------------------------

  /** The top 24 bits of every synthetic MAC: 03:13:37. */
  const MAC_PREFIX: nat := 0x031337
  /** 2^24: the low 24 bits carry the counter. */
  const LOW_SPAN: nat := 0x100_0000

  /** The MAC handed out for counter value `value`: the prefix on top, the
      low 24 bits of the counter below (for a non-negative counter,
      `value & 0xFFFFFF` is `value % 2^24`). */
  function SyntheticMac(value: nat): (mac: Mac)
    ensures mac / LOW_SPAN == MAC_PREFIX
    ensures mac % LOW_SPAN == value % LOW_SPAN
  {
    MAC_PREFIX * LOW_SPAN + value % LOW_SPAN
  }

  /** Two counter values give the same MAC exactly when their low 24 bits agree. */
  lemma SyntheticMacEqualIff(v: nat, w: nat)
    ensures SyntheticMac(v) == SyntheticMac(w) <==> v % LOW_SPAN == w % LOW_SPAN
  {
  }

  /** The MACs returned by the first `n` calls: the counter starts at 1. */
  function Issued(n: nat): (macs: seq<Mac>)
    ensures |macs| == n
  {
    if n == 0 then [] else Issued(n - 1) + [SyntheticMac(n)]
  }

  /** The (i+1)-th call returns the MAC of counter value i + 1. */
  lemma {:induction false} IssuedAt(n: nat, i: nat)
    requires i < n
    ensures Issued(n)[i] == SyntheticMac(i + 1)
  {
    if i < n - 1 {
      IssuedAt(n - 1, i);
    }
  }

  /** Up to 2^24 calls never return the same MAC twice (the 2^24-th call
      has low bits 0, which no earlier call produced). */
  lemma IssuedDistinct(n: nat)
    requires n <= LOW_SPAN
    ensures forall i, j :: 0 <= i < j < n ==> Issued(n)[i] != Issued(n)[j]
  {
    forall i, j | 0 <= i < j < n
      ensures Issued(n)[i] != Issued(n)[j]
    {
      IssuedAt(n, i);
      IssuedAt(n, j);
      SyntheticMacEqualIff(i + 1, j + 1);
    }
  }

  /** The counter is never checked for wrap-around: call 2^24 + 1 repeats
      the MAC of the first call. */
  lemma IssuedRepeatsAfterWrap(n: nat)
    requires LOW_SPAN < n
    ensures Issued(n)[LOW_SPAN] == Issued(n)[0]
  {
    IssuedAt(n, LOW_SPAN);
    IssuedAt(n, 0);
  }

  /** The allocator's counter. There is one for the whole controller, shared
      by every switch. `issued` records what it has handed out. */
  class MacAllocator {
    var nextvalue: nat
    ghost var issued: seq<Mac>

    ghost predicate Valid()
      reads this
    {
      1 <= nextvalue && issued == Issued(nextvalue - 1)
    }

    constructor ()
      ensures Valid() && nextvalue == 1 && issued == []
    {
      nextvalue := 1;
      issued := [];
    }

    /** Hands out the MAC of the current counter value and advances the
        counter by one; within the first 2^24 calls the MAC is new. */
    method Next() returns (mac: Mac)
      requires Valid()
      modifies this
      ensures Valid()
      ensures nextvalue == old(nextvalue) + 1
      ensures mac == SyntheticMac(old(nextvalue))
      ensures issued == old(issued) + [mac]
      ensures old(nextvalue) <= LOW_SPAN ==> mac !in old(issued)
    {
      var value := nextvalue;
      nextvalue := nextvalue + 1;
      mac := SyntheticMac(value);
      issued := issued + [mac];
      if value <= LOW_SPAN {
        assert issued == Issued(value);
        IssuedDistinct(value);
        forall i | 0 <= i < value - 1
          ensures old(issued)[i] != mac
        {
          assert issued[i] == old(issued)[i] && issued[value - 1] == mac;
        }
      }
    }
  }

  // ---------------------------------------------------------------------
  // Host ownership registry
  // ---------------------------------------------------------------------

  /** Wall-clock time in microseconds, the resolution of the clock read. */
  type Time = int

  /** How long an owner's claim lasts after it last saw the host. */
  const IDLE_WINDOW: int := IDLE_TIMEOUT * 1_000_000

  /** Which switch owns a host, and when that switch last saw it. */
  datatype Ownership = Ownership(id: SwitchId, lastSeen: Time)

  type Registry = map<Mac, Ownership>

  /** An entry last seen strictly more than the window before `now`. */
  predicate Expired(o: Ownership, now: Time)
  {
    o.lastSeen < now - IDLE_WINDOW
  }

  /** Whether `device` holds `host` after seeing it at `now`: the host is
      unowned, its owner's claim has expired, or `device` already owns it. */
  predicate Claims(entries: Registry, host: Mac, device: SwitchId, now: Time)
  {
    host !in entries || Expired(entries[host], now) || entries[host].id == device
  }

  /** The registry after `device` sees `host` at `now`. A missing or expired
      entry is taken over, the owner's own sighting renews the lease, and a
      sighting by another switch while the lease runs changes nothing. The
      first two cases leave the same entry, so `device` either holds the host
      as of `now` or nothing changes; other hosts are never touched. */
  function Touched(entries: Registry, host: Mac, device: SwitchId, now: Time): (r: Registry)
    ensures Claims(entries, host, device, now) ==> r == entries[host := Ownership(device, now)]
    ensures !Claims(entries, host, device, now) ==> r == entries
  {
    if host !in entries || Expired(entries[host], now) then
      entries[host := Ownership(device, now)]
    else if entries[host].id == device then
      entries[host := entries[host].(lastSeen := now)]
    else
      entries
  }

  /** The lease boundary is inclusive: a claim exactly one window old still
      holds against another switch, one microsecond older it does not. */
  lemma ExpiryBoundary(entries: Registry, host: Mac, device: SwitchId, now: Time)
    requires host in entries && entries[host].id != device
    ensures entries[host].lastSeen == now - IDLE_WINDOW ==>
              Touched(entries, host, device, now) == entries
    ensures entries[host].lastSeen == now - IDLE_WINDOW - 1 ==>
              Touched(entries, host, device, now)[host] == Ownership(device, now)
  {
  }

  /** A sighting of a host by one switch at one time. */
  datatype Sighting = Sighting(device: SwitchId, time: Time)

  /** The registry after the sightings of `host`, in order. */
  function TouchAll(entries: Registry, host: Mac, sightings: seq<Sighting>): Registry
    decreases |sightings|
  {
    if sightings == [] then entries
    else
      var last := sightings[|sightings| - 1];
      Touched(TouchAll(entries, host, sightings[..|sightings| - 1]), host, last.device, last.time)
  }

  /** The time of the latest sighting by `owner`, or `since` if there is none. */
  function LastSeenBy(owner: SwitchId, since: Time, sightings: seq<Sighting>): Time
    decreases |sightings|
  {
    if sightings == [] then since
    else if sightings[|sightings| - 1].device == owner then sightings[|sightings| - 1].time
    else LastSeenBy(owner, since, sightings[..|sightings| - 1])
  }

  /** Ownership is exclusive while it is fresh: if every sighting comes
      within the window of the owner's latest sighting before it, no other
      switch ever takes the host over, and the entry ends up recording the
      owner's latest sighting. */
  lemma {:induction false} OwnerKeepsHostWhileFresh(entries: Registry, host: Mac, sightings: seq<Sighting>)
    requires host in entries
    requires forall i :: 0 <= i < |sightings| ==>
               sightings[i].time - IDLE_WINDOW
                 <= LastSeenBy(entries[host].id, entries[host].lastSeen, sightings[..i])
    ensures host in TouchAll(entries, host, sightings)
    ensures TouchAll(entries, host, sightings)[host]
              == Ownership(entries[host].id, LastSeenBy(entries[host].id, entries[host].lastSeen, sightings))
    decreases |sightings|
  {
    if sightings != [] {
      var n := |sightings|;
      var prefix := sightings[..n - 1];
      forall i | 0 <= i < |prefix|
        ensures prefix[i].time - IDLE_WINDOW
                  <= LastSeenBy(entries[host].id, entries[host].lastSeen, prefix[..i])
      {
        assert prefix[..i] == sightings[..i];
      }
      OwnerKeepsHostWhileFresh(entries, host, prefix);
      assert sightings[..n - 1] == prefix;
    }
  }

  /** The registry shared by all switches of the controller. */
  class HostRegistry {
    var entries: Registry

    constructor ()
      ensures entries == map[]
    {
      entries := map[];
    }

    /** Records that switch `device` saw `host` at `now`. */
    method Touch(host: Mac, device: SwitchId, now: Time)
      modifies this
      ensures entries == Touched(old(entries), host, device, now)
    {
      if host !in entries || entries[host].lastSeen < now - IDLE_WINDOW {
        entries := entries[host := Ownership(device, now)];
      } else if entries[host].id == device {
        entries := entries[host := entries[host].(lastSeen := now)];
      }
    }
  }

  // ---------------------------------------------------------------------
  // ARP interception and the decision chain
  // ---------------------------------------------------------------------

  /** An address to answer for: its text starts with "10.123.". */
  predicate IsLoadBalanceTarget(ip: IPv4)
  {
    StartsWith(DottedQuad(ip), LOADBALANCE_TARGET)
  }

  /** The text test is a test on the first two octets. */
  lemma LoadBalanceTargetOctets(ip: IPv4)
    ensures IsLoadBalanceTarget(ip) <==> ip.o0 == 10 && ip.o1 == 123
  {
    DottedQuadStartsWith10123(ip);
  }

  /** 10.123.5.9 is answered for; 10.200.0.1 is not. */
  lemma LoadBalanceTargetExamples()
    ensures IsLoadBalanceTarget(IPv4(10, 123, 5, 9))
    ensures !IsLoadBalanceTarget(IPv4(10, 200, 0, 1))
  {
    LoadBalanceTargetOctets(IPv4(10, 123, 5, 9));
    LoadBalanceTargetOctets(IPv4(10, 200, 0, 1));
  }

  /** Whether the controller answers `ev` itself: it is not LLDP or IPv6 and
      carries an ARP message (of any opcode) for a load-balance target. */
  predicate Intercepts(ev: PacketIn)
  {
    && !Learning.Suppressed(ev.packet.etherType)
    && ev.packet.arp.Some?
    && IsLoadBalanceTarget(ev.packet.arp.value.protodst)
  }

  /** The ARP reply to `request` announcing `mac` for the requested address. */
  function ArpReplyTo(request: Arp, mac: Mac): Arp
  {
    Arp(request.hwtype, request.prototype, request.hwlen, request.protolen, ARP_REPLY,
        mac, request.hwsrc, request.protodst, request.protosrc)
  }

  /** Replying to the reply, with the requester's own MAC, gives back the
      request turned into a reply addressed to `mac`: the swap of sender and
      target is its own inverse. */
  lemma ReplyToReply(request: Arp, mac: Mac)
    ensures ArpReplyTo(ArpReplyTo(request, mac), request.hwsrc)
            == request.(opcode := ARP_REPLY, hwdst := mac)
  {
  }

  /** The message chosen for `ev` once `table` has learned its source, with
      the allocator's counter at `nextvalue`. The registry plays no part. */
  function Decide(table: Learning.MacTable, ev: PacketIn, nextvalue: nat): Action
  {
    var packet := ev.packet;
    if Learning.Suppressed(packet.etherType) then
      Drop(ev.bufferId, ev.inPort)
    else if packet.arp.Some? && IsLoadBalanceTarget(packet.arp.value.protodst) then
      var mac := SyntheticMac(nextvalue);
      var request := packet.arp.value;
      ArpReply(Ethernet(mac, request.hwsrc, packet.etherType, Some(ArpReplyTo(request, mac))),
               OFPP_NONE, ev.inPort)
    else if packet.dst in table then
      InstallRule(packet.dst, packet.src, table[packet.dst], IDLE_TIMEOUT, HARD_TIMEOUT, ev)
    else
      Flood(ev.bufferId, ev.inPort)
  }

  /** Interception happens exactly for non-LLDP, non-IPv6 packets carrying
      ARP for an address 10.123.x.y. */
  lemma InterceptsIff(ev: PacketIn)
    ensures Intercepts(ev) <==>
              && !Learning.Suppressed(ev.packet.etherType)
              && ev.packet.arp.Some?
              && ev.packet.arp.value.protodst.o0 == 10
              && ev.packet.arp.value.protodst.o1 == 123
  {
    if ev.packet.arp.Some? {
      LoadBalanceTargetOctets(ev.packet.arp.value.protodst);
    }
  }

  /** Outside interception the load-balancing switch answers exactly as the
      learning switch does; in particular LLDP and IPv6 are dropped even
      when they carry an ARP message for a target. */
  lemma AgreesWithLearningSwitch(table: Learning.MacTable, ev: PacketIn, nextvalue: nat)
    ensures !Intercepts(ev) ==> Decide(table, ev, nextvalue) == Learning.Decide(table, ev)
    ensures Learning.Suppressed(ev.packet.etherType) ==>
              Decide(table, ev, nextvalue) == Drop(ev.bufferId, ev.inPort)
  {
  }

  /** An intercepted ARP message is answered, out of its own ingress port and
      with no ingress port of its own, by a frame from the fresh MAC to the
      asker carrying an ARP reply: header fields copied, opcode REPLY, the
      asker as target, the fresh MAC claiming the address that was asked
      for. No rule is installed and the MAC table plays no part. */
  lemma InterceptedReply(table: Learning.MacTable, ev: PacketIn, nextvalue: nat)
    requires Intercepts(ev)
    ensures var a := Decide(table, ev, nextvalue);
            var request := ev.packet.arp.value;
            && a.ArpReply?
            && a.inPort == OFPP_NONE && a.outPort == ev.inPort
            && a.frame.src == SyntheticMac(nextvalue)
            && a.frame.dst == request.hwsrc
            && a.frame.etherType == ev.packet.etherType
            && a.frame.arp.Some?
            && var reply := a.frame.arp.value;
               && reply.opcode == ARP_REPLY
               && reply.hwtype == request.hwtype && reply.prototype == request.prototype
               && reply.hwlen == request.hwlen && reply.protolen == request.protolen
               && reply.hwsrc == SyntheticMac(nextvalue) && reply.hwdst == request.hwsrc
               && reply.protosrc == request.protodst && reply.protodst == request.protosrc
    ensures forall other: Learning.MacTable ::
              Decide(other, ev, nextvalue) == Decide(table, ev, nextvalue)
  {
  }

  /** One switch connection: its own MAC table, the controller's shared
      registry and allocator. */
  class LoadBalancingSwitch {
    const id: SwitchId
    const hostlocations: HostRegistry
    const allocator: MacAllocator
    var mactable: Learning.MacTable

    constructor (id: SwitchId, hostlocations: HostRegistry, allocator: MacAllocator)
      ensures this.id == id && this.hostlocations == hostlocations && this.allocator == allocator
      ensures mactable == map[]
    {
      this.id := id;
      this.hostlocations := hostlocations;
      this.allocator := allocator;
      mactable := map[];
    }

    /** Handles one packet-in seen at `now` and returns the one message sent
        in reply. The allocator is called exactly when the packet is
        intercepted, and then hands out a MAC it has not handed out before
        (within its first 2^24 calls). */
    method HandlePacketIn(ev: PacketIn, now: Time) returns (action: Action)
      requires allocator.Valid()
      modifies this, hostlocations, allocator
      ensures allocator.Valid()
      ensures hostlocations.entries == Touched(old(hostlocations.entries), ev.packet.src, id, now)
      ensures mactable == Learning.Learn(old(mactable), ev.packet.src, ev.inPort)
      ensures action == Decide(mactable, ev, old(allocator.nextvalue))
      ensures allocator.nextvalue == old(allocator.nextvalue) + if Intercepts(ev) then 1 else 0
      ensures allocator.issued
              == old(allocator.issued) + if Intercepts(ev) then [action.frame.src] else []
      ensures Intercepts(ev) && old(allocator.nextvalue) <= LOW_SPAN ==>
                action.frame.src !in old(allocator.issued)
    {
      var packet := ev.packet;
      hostlocations.Touch(packet.src, id, now);

      if packet.src !in mactable || mactable[packet.src] != ev.inPort {
        mactable := mactable[packet.src := ev.inPort];
      }

      if packet.etherType == LLDP_TYPE || packet.etherType == IPV6_TYPE {
        return Drop(ev.bufferId, ev.inPort);
      }

      if packet.arp.Some? && IsLoadBalanceTarget(packet.arp.value.protodst) {
        var mac := allocator.Next();
        var request := packet.arp.value;
        var reply := ArpReplyTo(request, mac);
        var frame := Ethernet(mac, request.hwsrc, packet.etherType, Some(reply));
        return ArpReply(frame, OFPP_NONE, ev.inPort);
      } else if packet.dst in mactable {
        return InstallRule(packet.dst, packet.src, mactable[packet.dst], IDLE_TIMEOUT, HARD_TIMEOUT, ev);
      }

      action := Flood(ev.bufferId, ev.inPort);
    }
  }

  /** Two switches share one registry. Switch 1 sees `host` at `t`; switch 2
      sees it exactly one window later and the host stays switch 1's; switch
      2 sees it one microsecond after that and takes it over. */
  method SharedRegistryScenario(ev: PacketIn, t: Time)
    returns (first: Ownership, second: Ownership, third: Ownership)
    ensures first == Ownership(1, t)
    ensures second == Ownership(1, t)
    ensures third == Ownership(2, t + IDLE_WINDOW + 1)
  {
    var registry := new HostRegistry();
    var allocator := new MacAllocator();
    var s1 := new LoadBalancingSwitch(1, registry, allocator);
    var s2 := new LoadBalancingSwitch(2, registry, allocator);
    var host := ev.packet.src;
    var reply := s1.HandlePacketIn(ev, t);
    first := registry.entries[host];
    reply := s2.HandlePacketIn(ev, t + IDLE_WINDOW);
    second := registry.entries[host];
    reply := s2.HandlePacketIn(ev, t + IDLE_WINDOW + 1);
    third := registry.entries[host];
  }

  /** Two switches share one allocator: ARP requests for targets intercepted
      on different switches are answered with different MACs. */
  method SharedAllocatorScenario(ev1: PacketIn, ev2: PacketIn, t: Time)
    returns (reply1: Action, reply2: Action)
    requires Intercepts(ev1) && Intercepts(ev2)
    ensures reply1.ArpReply? && reply2.ArpReply?
    ensures reply1.frame.src == SyntheticMac(1) && reply2.frame.src == SyntheticMac(2)
    ensures reply1.frame.src != reply2.frame.src
  {
    var registry := new HostRegistry();
    var allocator := new MacAllocator();
    var s1 := new LoadBalancingSwitch(1, registry, allocator);
    var s2 := new LoadBalancingSwitch(2, registry, allocator);
    reply1 := s1.HandlePacketIn(ev1, t);
    reply2 := s2.HandlePacketIn(ev2, t);
  }
}
