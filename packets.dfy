/** Link-layer and address-resolution values as the controller sees them once
    the runtime has parsed a packet: Ethernet frames, ARP messages (RFC 826),
    IPv4 addresses and their dotted-decimal rendering. */
module Packets {

  datatype Option<T> = None | Some(value: T)

  type Byte = x: int | 0 <= x < 0x100
  /** A 48-bit link-layer address. */
  type Mac = x: int | 0 <= x < 0x1_0000_0000_0000
  type EtherType = x: int | 0 <= x < 0x1_0000

  const LLDP_TYPE: EtherType := 0x88cc
  const IPV6_TYPE: EtherType := 0x86dd

  const ARP_REQUEST: nat := 1
  const ARP_REPLY: nat := 2

  datatype IPv4 = IPv4(o0: Byte, o1: Byte, o2: Byte, o3: Byte)

  /** An ARP message, field by field (RFC 826, "Packet format"). */
  datatype Arp = Arp(hwtype: nat, prototype: nat, hwlen: nat, protolen: nat, opcode: nat,
                     hwsrc: Mac, hwdst: Mac, protosrc: IPv4, protodst: IPv4)

  /** An Ethernet frame. `arp` is what a search of the frame's payloads for an
      ARP message finds: it may sit behind a VLAN tag, so it is not tied to
      `etherType`. Other payloads are not modelled. */
  datatype Ethernet = Ethernet(src: Mac, dst: Mac, etherType: EtherType, arp: Option<Arp>)

  // ---------------------------------------------------------------------
  // Text form of an IPv4 address and prefix tests on it
  // ---------------------------------------------------------------------

  function Digit(d: nat): (c: char)
    requires d < 10
    ensures '0' <= c <= '9'
  {
    ('0' as int + d) as char
  }

  /** The decimal numeral of `n`, without leading zeros. */
  function Decimal(n: nat): (s: string)
    ensures 0 < |s|
    ensures forall i :: 0 <= i < |s| ==> '0' <= s[i] <= '9'
  {
    if n < 10 then [Digit(n)] else Decimal(n / 10) + [Digit(n % 10)]
  }

  /** The dotted-quad text of an address ("10.123.5.9"). */
  function DottedQuad(ip: IPv4): string
  {
    Decimal(ip.o0) + "." + Decimal(ip.o1) + "." + Decimal(ip.o2) + "." + Decimal(ip.o3)
  }

  predicate StartsWith(s: string, prefix: string)
  {
    |prefix| <= |s| && s[..|prefix|] == prefix
  }

  /** Distinct numbers have distinct numerals. */
  lemma {:induction false} DecimalInjective(m: nat, n: nat)
    ensures Decimal(m) == Decimal(n) ==> m == n
  {
    if Decimal(m) == Decimal(n) {
      if m < 10 && n < 10 {
        assert Digit(m) == Decimal(m)[0] == Decimal(n)[0] == Digit(n);
      } else if 10 <= m && 10 <= n {
        var s := Decimal(m);
        assert Digit(m % 10) == s[|s| - 1] == Digit(n % 10);
        assert Decimal(m / 10) == s[..|s| - 1] == Decimal(n / 10);
        DecimalInjective(m / 10, n / 10);
      }
    }
  }

  /** Where two dot-terminated numerals line up, they have the same length. */
  lemma FieldLengthsAgree(a: string, b: string, rest: string, q: string)
    requires forall i :: 0 <= i < |a| ==> '0' <= a[i] <= '9'
    requires forall i :: 0 <= i < |b| ==> '0' <= b[i] <= '9'
    ensures StartsWith(b + "." + rest, a + "." + q) ==> |a| == |b|
  {
    var s, p := b + "." + rest, a + "." + q;
    var k := if |a| < |b| then |a| else |b|;
    assert s[k] == if k < |b| then b[k] else '.';
    assert p[k] == if k < |a| then a[k] else '.';
  }

  /** A text that starts with the numeral of `n` and a dot starts with the
      numeral of `m`, a dot and `q` exactly when `m == n` and the rest starts
      with `q`: numerals hold no dot, so the dot fixes where each one ends. */
  lemma DecimalFieldPrefix(n: nat, rest: string, m: nat, q: string)
    ensures StartsWith(Decimal(n) + "." + rest, Decimal(m) + "." + q)
            <==> m == n && StartsWith(rest, q)
  {
    var a, b := Decimal(m), Decimal(n);
    var s, p := b + "." + rest, a + "." + q;
    assert s == b + ("." + rest) && p == a + ("." + q);
    if StartsWith(s, p) {
      FieldLengthsAgree(a, b, rest, q);
      assert a == p[..|a|] == s[..|a|] == b;
      DecimalInjective(m, n);
      assert rest[..|q|] == s[|a| + 1..|p|] == p[|a| + 1..] == q;
    }
    if m == n && StartsWith(rest, q) {
      assert s[..|p|] == a + "." + rest[..|q|];
    }
  }

  lemma NumeralsOfTarget()
    ensures Decimal(10) == "10" && Decimal(123) == "123"
  {
  }

  /** A dotted-quad address text starts with "10.123." exactly when the
      first two octets are 10 and 123. */
  lemma DottedQuadStartsWith10123(ip: IPv4)
    ensures StartsWith(DottedQuad(ip), "10.123.") <==> ip.o0 == 10 && ip.o1 == 123
  {
    var tail := Decimal(ip.o2) + "." + Decimal(ip.o3);
    var rest := Decimal(ip.o1) + "." + tail;
    assert DottedQuad(ip) == Decimal(ip.o0) + "." + rest;
    NumeralsOfTarget();
    assert "10.123." == Decimal(10) + "." + (Decimal(123) + "." + "");
    DecimalFieldPrefix(ip.o0, rest, 10, Decimal(123) + "." + "");
    DecimalFieldPrefix(ip.o1, tail, 123, "");
  }
}
