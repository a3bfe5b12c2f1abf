// The order of packets in packet.c: addresses and packets are compared field by field, and the
// tree of outstanding requests is ordered by that comparison.
module PacketOrder {
  const AF_UNSPEC: int := 0
  const AF_INET: int := 2
  const AF_INET6: int := 10

  type Byte = b: nat | b < 256

  // fr_ipaddr_t; an IPv4 address is in the first four bytes, in network order.
  datatype Addr = Addr(af: int, prefix: nat, bytes: seq<Byte>, scope: nat)

  predicate Sized(a: Addr) {
    |a.bytes| == 16
  }

  predicate Known(a: Addr) {
    Sized(a) && (a.af == AF_INET || a.af == AF_INET6)
  }

  // The fields of a packet that fr_packet_cmp looks at.
  datatype Packet = Packet(sockfd: int, id: int, src: Addr, srcPort: nat, dst: Addr, dstPort: nat)

  // memcmp over the first n bytes from i on
  function MemCmp(a: seq<Byte>, b: seq<Byte>, n: nat, i: nat := 0): int
    requires i <= n <= |a| && n <= |b|
    decreases n - i
  {
    if i == n then 0
    else if a[i] != b[i] then a[i] - b[i]
    else MemCmp(a, b, n, i + 1)
  }

  // fr_ipaddr_cmp
  function AddrCmp(a: Addr, b: Addr): int
    requires Sized(a) && Sized(b)
  {
    if a.af < b.af then -1
    else if a.af > b.af then 1
    else if a.prefix < b.prefix then -1
    else if a.prefix > b.prefix then 1
    else if a.af == AF_INET then MemCmp(a.bytes, b.bytes, 4)
    else if a.af == AF_INET6 then
      if a.scope < b.scope then -1
      else if a.scope > b.scope then 1
      else MemCmp(a.bytes, b.bytes, 16)
    else -1
  }

  // fr_packet_cmp
  function PacketCmp(a: Packet, b: Packet): int
    requires Sized(a.src) && Sized(a.dst) && Sized(b.src) && Sized(b.dst)
  {
    if a.id < b.id then -1
    else if a.id > b.id then 1
    else if a.sockfd < b.sockfd then -1
    else if a.sockfd > b.sockfd then 1
    else if a.srcPort != b.srcPort then a.srcPort - b.srcPort
    else
      var s := AddrCmp(a.src, b.src);
      if s != 0 then s
      else
        var d := AddrCmp(a.dst, b.dst);
        if d != 0 then d else a.dstPort - b.dstPort
  }

  // What an address is to the comparison: IPv4 addresses have four bytes and no scope.
  function Canonical(a: Addr): Addr
    requires Sized(a)
  {
    if a.af == AF_INET then Addr(a.af, a.prefix, a.bytes[..4] + seq(12, _ => 0), 0) else a
  }

  function KeyOf(p: Packet): Packet
    requires Sized(p.src) && Sized(p.dst)
  {
    p.(src := Canonical(p.src), dst := Canonical(p.dst))
  }

  // ---------- the comparison is a total order on what it compares ----------

  lemma {:induction false} MemCmpIff(a: seq<Byte>, b: seq<Byte>, n: nat, i: nat)
    requires i <= n <= |a| && n <= |b|
    ensures MemCmp(a, b, n, i) == 0 <==> a[i..n] == b[i..n]
    ensures MemCmp(b, a, n, i) == -MemCmp(a, b, n, i)
    decreases n - i
  {
    if i == n {
    } else {
      MemCmpIff(a, b, n, i + 1);
      assert a[i..n] == [a[i]] + a[i + 1..n];
      assert b[i..n] == [b[i]] + b[i + 1..n];
    }
  }

  lemma {:induction false} MemCmpTransitive(a: seq<Byte>, b: seq<Byte>, c: seq<Byte>, n: nat, i: nat)
    requires i <= n <= |a| && n <= |b| && n <= |c|
    requires MemCmp(a, b, n, i) <= 0 && MemCmp(b, c, n, i) <= 0
    ensures MemCmp(a, c, n, i) <= 0
    ensures MemCmp(a, b, n, i) < 0 || MemCmp(b, c, n, i) < 0 ==> MemCmp(a, c, n, i) < 0
    decreases n - i
  {
    if i == n {
    } else if a[i] == b[i] == c[i] {
      MemCmpTransitive(a, b, c, n, i + 1);
    }
  }

  // Two addresses compare equal exactly when they are the same address of a known family.
  lemma AddrCmpIff(a: Addr, b: Addr)
    requires Sized(a) && Sized(b)
    ensures AddrCmp(a, b) == 0 <==> Known(a) && Canonical(a) == Canonical(b)
    ensures (AddrCmp(a, b) < 0 <==> AddrCmp(b, a) > 0) && (AddrCmp(a, b) > 0 <==> AddrCmp(b, a) < 0)
      <==> a.af != b.af || a.prefix != b.prefix || Known(a)
  {
    if a.af == b.af == AF_INET {
      MemCmpIff(a.bytes, b.bytes, 4, 0);
      assert Canonical(a).bytes[..4] == a.bytes[0..4] && Canonical(b).bytes[..4] == b.bytes[0..4];
    } else if a.af == b.af {
      MemCmpIff(a.bytes, b.bytes, 16, 0);
      assert a.bytes[0..16] == a.bytes && b.bytes[0..16] == b.bytes;
    }
  }

  lemma AddrCmpTransitive(a: Addr, b: Addr, c: Addr)
    requires Sized(a) && Sized(b) && Sized(c) && AddrCmp(a, b) <= 0 && AddrCmp(b, c) <= 0
    ensures AddrCmp(a, c) <= 0
    ensures AddrCmp(a, b) < 0 || AddrCmp(b, c) < 0 ==> AddrCmp(a, c) < 0
  {
    if a.af == b.af == c.af && a.prefix == b.prefix == c.prefix {
      if a.af == AF_INET {
        MemCmpTransitive(a.bytes, b.bytes, c.bytes, 4, 0);
      } else if a.scope == b.scope == c.scope {
        if a.af == AF_INET6 {
          MemCmpTransitive(a.bytes, b.bytes, c.bytes, 16, 0);
        }
      }
    }
  }

  predicate KnownPacket(p: Packet) {
    Known(p.src) && Known(p.dst)
  }

  predicate SizedPacket(p: Packet) {
    Sized(p.src) && Sized(p.dst)
  }

  // Two packets compare equal exactly when they have the same key and known families; with known
  // families, swapping them swaps the sign.
  lemma PacketCmpIff(a: Packet, b: Packet)
    requires SizedPacket(a) && SizedPacket(b)
    ensures PacketCmp(a, b) == 0 <==> KnownPacket(a) && KeyOf(a) == KeyOf(b)
    ensures KnownPacket(a) ==> (PacketCmp(a, b) < 0 <==> PacketCmp(b, a) > 0)
  {
    AddrCmpIff(a.src, b.src);
    AddrCmpIff(a.dst, b.dst);
  }

  lemma PacketCmpTransitive(a: Packet, b: Packet, c: Packet)
    requires SizedPacket(a) && SizedPacket(b) && SizedPacket(c)
    requires PacketCmp(a, b) <= 0 && PacketCmp(b, c) <= 0
    ensures PacketCmp(a, c) <= 0
    ensures PacketCmp(a, b) < 0 || PacketCmp(b, c) < 0 ==> PacketCmp(a, c) < 0
  {
    AddrCmpIff(a.src, b.src);
    AddrCmpIff(b.src, c.src);
    if AddrCmp(a.src, b.src) <= 0 && AddrCmp(b.src, c.src) <= 0 {
      AddrCmpTransitive(a.src, b.src, c.src);
    }
    if AddrCmp(a.dst, b.dst) <= 0 && AddrCmp(b.dst, c.dst) <= 0 {
      AddrCmpTransitive(a.dst, b.dst, c.dst);
    }
  }

  // An address of an unknown family is not equal to itself: such a packet could never be found.
  lemma ComparesToItselfIff(p: Packet)
    requires SizedPacket(p)
    ensures PacketCmp(p, p) == 0 <==> KnownPacket(p)
  {
    PacketCmpIff(p, p);
  }
}
