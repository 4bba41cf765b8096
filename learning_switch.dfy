/** The reactive L2 learning switch: every packet-in teaches the switch's MAC
    table where its source lives, then exactly one message answers it: a drop
    for LLDP and IPv6, a flow install when the destination's port is known,
    a flood otherwise. */
module Learning {
  import opened Packets
  import opened OpenFlow

  const HARD_TIMEOUT: nat := 30
  const IDLE_TIMEOUT: nat := 30

  /** Where each host was last seen: host address to ingress port. */
  type MacTable = map<Mac, Port>

  /** Traffic the controller acknowledges and discards: LLDP and IPv6. */
  predicate Suppressed(etherType: EtherType)
  {
    etherType == LLDP_TYPE || etherType == IPV6_TYPE
  }

  /** The table after seeing `src` arrive on `port`: the entry is written only
      when it is missing or names another port. Whatever the old entry, the
      host now maps to `port`; no other entry changes and none disappears. */
  function Learn(table: MacTable, src: Mac, port: Port): (t: MacTable)
    ensures src in t && t[src] == port
    ensures t.Keys == table.Keys + {src}
    ensures forall h :: h in table && h != src ==> t[h] == table[h]
  {
    if src !in table || table[src] != port then table[src := port] else table
  }

  /** The message chosen for `ev` once `table` has learned its source. */
  function Decide(table: MacTable, ev: PacketIn): Action
  {
    var packet := ev.packet;
    if Suppressed(packet.etherType) then
      Drop(ev.bufferId, ev.inPort)
    else if packet.dst in table then
      InstallRule(packet.dst, packet.src, table[packet.dst], IDLE_TIMEOUT, HARD_TIMEOUT, ev)
    else
      Flood(ev.bufferId, ev.inPort)
  }

  /** Learning writes nothing exactly when the table already records the port. */
  lemma LearnUnchangedIff(table: MacTable, src: Mac, port: Port)
    ensures Learn(table, src, port) == table <==> src in table && table[src] == port
  {
  }

  /** Seeing the same host on the same port again changes nothing. */
  lemma LearnIdempotent(table: MacTable, src: Mac, port: Port)
    ensures Learn(Learn(table, src, port), src, port) == Learn(table, src, port)
  {
  }

  /** The answer to a packet-in, in terms of the table before it arrived:
      LLDP and IPv6 are dropped whatever the table holds; otherwise a known
      destination gets a (dst, src) rule with both timeouts 30 toward its
      recorded port, and since learning runs first, a packet addressed to
      its own sender is sent back out of its ingress port; anything else is
      flooded. */
  lemma PacketInOutcome(table: MacTable, ev: PacketIn)
    ensures var src, dst := ev.packet.src, ev.packet.dst;
            var a := Decide(Learn(table, src, ev.inPort), ev);
            && (Suppressed(ev.packet.etherType) ==> a == Drop(ev.bufferId, ev.inPort))
            && (!Suppressed(ev.packet.etherType) && dst == src ==>
                  a == InstallRule(dst, src, ev.inPort, 30, 30, ev))
            && (!Suppressed(ev.packet.etherType) && dst != src && dst in table ==>
                  a == InstallRule(dst, src, table[dst], 30, 30, ev))
            && (!Suppressed(ev.packet.etherType) && dst != src && dst !in table ==>
                  a == Flood(ev.bufferId, ev.inPort))
  {
  }

  // ---------------------------------------------------------------------
  // A session: the packet-ins of one switch, handled one at a time in order
  // ---------------------------------------------------------------------

  /** The table after handling `evs` from `table`, and the message sent for
      each packet-in, in order: exactly one per notification, and no entry
      of the starting table is ever lost. */
  function Session(table: MacTable, evs: seq<PacketIn>): (r: (MacTable, seq<Action>))
    ensures |r.1| == |evs|
    ensures table.Keys <= r.0.Keys
    decreases |evs|
  {
    if evs == [] then (table, [])
    else
      var before := Session(table, evs[..|evs| - 1]);
      var ev := evs[|evs| - 1];
      var after := Learn(before.0, ev.packet.src, ev.inPort);
      (after, before.1 + [Decide(after, ev)])
  }

  /** The ingress port of the last packet-in in `evs` sent by `h`, if any. */
  function LastPort(h: Mac, evs: seq<PacketIn>): Option<Port>
    decreases |evs|
  {
    if evs == [] then None
    else if evs[|evs| - 1].packet.src == h then Some(evs[|evs| - 1].inPort)
    else LastPort(h, evs[..|evs| - 1])
  }

  /** After a session the table knows a host exactly when it knew it before
      or the host sent something, and then records the port of the host's
      latest packet (or the old entry if it sent nothing). */
  lemma {:induction false} SessionLearnsLastPort(table: MacTable, evs: seq<PacketIn>, h: Mac)
    ensures h in Session(table, evs).0 <==> h in table || LastPort(h, evs).Some?
    ensures h in Session(table, evs).0 ==>
              Session(table, evs).0[h] == (match LastPort(h, evs)
                                           case Some(p) => p
                                           case None => table[h])
    decreases |evs|
  {
    if evs != [] {
      SessionLearnsLastPort(table, evs[..|evs| - 1], h);
    }
  }

  /** The i-th message of a session is the decision for the i-th packet-in,
      taken on the table that has learned packets 0..i. */
  lemma {:induction false} SessionAnswersInOrder(table: MacTable, evs: seq<PacketIn>, i: nat)
    requires i < |evs|
    ensures Session(table, evs).1[i] == Decide(Session(table, evs[..i + 1]).0, evs[i])
    decreases |evs|
  {
    if i < |evs| - 1 {
      var prefix := evs[..|evs| - 1];
      SessionAnswersInOrder(table, prefix, i);
      assert prefix[..i + 1] == evs[..i + 1];
    } else {
      assert evs[..i + 1] == evs;
    }
  }

  /** One switch connection. Its MAC table is private to it. */
  class LearningSwitch {
    var mactable: MacTable

    constructor ()
      ensures mactable == map[]
    {
      mactable := map[];
    }

    /** Handles one packet-in and returns the one message sent in reply. */
    method HandlePacketIn(ev: PacketIn) returns (action: Action)
      modifies this
      ensures mactable == Learn(old(mactable), ev.packet.src, ev.inPort)
      ensures action == Decide(mactable, ev)
    {
      var packet := ev.packet;
      if packet.src !in mactable || mactable[packet.src] != ev.inPort {
        mactable := mactable[packet.src := ev.inPort];
      }

      if packet.etherType == LLDP_TYPE || packet.etherType == IPV6_TYPE {
        return Drop(ev.bufferId, ev.inPort);
      } else if packet.dst in mactable {
        return InstallRule(packet.dst, packet.src, mactable[packet.dst], IDLE_TIMEOUT, HARD_TIMEOUT, ev);
      }

      action := Flood(ev.bufferId, ev.inPort);
    }
  }

  /** Host A, on port x, sends to a not yet known B: flooded. B, on port y,
      then sends to A: a rule toward x, learned from A's first packet. */
  method EndToEnd(a: Mac, b: Mac, x: Port, y: Port, etherType: EtherType,
                  buffer1: BufferId, buffer2: BufferId)
    returns (first: Action, second: Action)
    requires a != b && !Suppressed(etherType)
    ensures first == Flood(buffer1, x)
    ensures second == InstallRule(a, b, x, IDLE_TIMEOUT, HARD_TIMEOUT,
                                  PacketIn(y, buffer2, Ethernet(b, a, etherType, None)))
  {
    var sw := new LearningSwitch();
    first := sw.HandlePacketIn(PacketIn(x, buffer1, Ethernet(a, b, etherType, None)));
    second := sw.HandlePacketIn(PacketIn(y, buffer2, Ethernet(b, a, etherType, None)));
  }
}
