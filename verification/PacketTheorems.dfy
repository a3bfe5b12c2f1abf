// What the packet list promises: Identifiers are never shared, allocation fails only when nothing
// is free, and a reply finds exactly its request.
module PacketTheorems {
  import opened Options
  import opened PacketOrder
  import opened PacketIds
  import opened PacketSpec

  // ---------- every run ----------

  // Section 3 of RFC 2865: the Identifier tells apart the outstanding requests of a socket. The
  // counters are the numbers of bits set, and their sum is the number of outstanding requests.
  lemma IdsDistinct<P>(calls: seq<Call<P>>)
    requires Run(Create(), calls)
    ensures var l := Last(Create(), calls);
      && (forall a, b :: a in l.tree && b in l.tree && a.sockfd == b.sockfd && a.id == b.id ==> a == b)
      && (forall i :: 0 <= i < |l.sockets| ==>
            |l.sockets[i].ids| == 32 && l.sockets[i].numOutgoing == |Used(l.sockets[i].ids)|)
      && l.numOutgoing == Outgoing(l.sockets) == |l.tree|
      && l.numSockets == OpenCount(l.sockets)
  {
    CreateInv<P>();
    RunKeeps(Create(), calls);
    var l := Last<P>(Create(), calls);
    forall i | 0 <= i < |l.sockets|
      ensures |l.sockets[i].ids| == 32 && l.sockets[i].numOutgoing == |Used(l.sockets[i].ids)|
    {
      assert SocketOk(l.sockets[i]);
    }
  }

  // An Identifier is marked in a socket's map exactly while a request on that socket has it.
  lemma TakenIffOutstanding<P>(l: List<P>, i: nat, n: nat)
    requires Inv(l) && i < |l.sockets| && Open(l.sockets[i]) && n < 256
    ensures SizedSocket(l.sockets[i])
    ensures Taken(l.sockets[i].ids, n) <==> exists key :: key in l.tree && key.sockfd == l.sockets[i].sockfd && key.id == n
  {
    if Taken(l.sockets[i].ids, n) {
      var key := Holder(l, i, n);
    }
    forall key | key in l.tree && key.sockfd == l.sockets[i].sockfd && key.id == n
      ensures Taken(l.sockets[i].ids, n)
    {
      assert Placed(l, key);
      PlacedAt(l, i, key);
    }
  }

  // The socket passes the filters and has fewer than 256 requests outstanding.
  predicate HasRoom(s: Socket, r: Request, proto: int)
    requires SizedSocket(s) && SizedRequest(r)
  {
    Usable(s, r, proto) && s.numOutgoing < 256
  }

  // Having room is having a free Identifier.
  lemma RoomIff<P>(l: List<P>, i: nat, r: Request, proto: int)
    requires Inv(l) && SizedRequest(r) && i < |l.sockets|
    ensures SizedSocket(l.sockets[i])
    ensures HasRoom(l.sockets[i], r, proto) <==> exists n :: CanAlloc(l, i, n, r, proto)
  {
    hide Usable, Bit;
    var s := l.sockets[i];
    assert SocketOk(s);
    AllTakenIff(s.ids);
    if HasRoom(s, r, proto) {
      var n: nat :| n < 256 && !Taken(s.ids, n);
      assert CanAlloc(l, i, n, r, proto);
    }
  }

  // For a request that passes the argument checks, allocation succeeds exactly when some socket
  // that passes the filters has fewer than 256 requests outstanding.
  lemma AllocSucceedsIff<P>(l: List<P>, r: Request, proto: int, p: P, l': List<P>, ok: bool)
    requires Inv(l) && SizedRequest(r) && ArgumentsOk(r) && Formed(l) && Step(l, Alloc(r, proto, p), l', ok)
    ensures ok <==> exists i :: 0 <= i < |l.sockets| && HasRoom(l.sockets[i], Prepared(r), proto)
  {
    hide HasRoom, Prepared, ArgumentsOk, Usable, Inv;
    if ok {
      var i, n :| CanAlloc(l, i, n, Prepared(r), proto) && l' == AllocAt(l, i, n, r, p);
      CanBounds(l, i, n, Prepared(r), proto);
      RoomIff(l, i, Prepared(r), proto);
    } else {
      forall i | 0 <= i < |l.sockets|
        ensures !HasRoom(l.sockets[i], Prepared(r), proto)
      {
        RoomIff(l, i, Prepared(r), proto);
      }
    }
  }

  // Freeing what was just allocated gives the whole list back.
  lemma FreeUndoesAlloc<P>(l: List<P>, i: nat, n: nat, r: Request, proto: int, p: P)
    requires Inv(l) && SizedRequest(r) && ArgumentsOk(r) && CanAlloc(l, i, n, Prepared(r), proto)
    ensures var l' := AllocAt(l, i, n, r, p);
      Formed(l') && FreeAt(l', i, KeyOf(Assigned(l.sockets[i], n, r))) == l
  {
    hide Octet, SetId, ClearId, Bit, Canonical, ArgumentsOk, AddrCmp, InAddrAny;
    OctetIs(n);
    NoCollision(l, i, n, r);
    ClearSet(l.sockets[i].ids, n);
    var key, s, l' := KeyOf(Assigned(l.sockets[i], n, r)), l.sockets[i], AllocAt(l, i, n, r, p);
    assert (l.tree[key := p] - {key}) == l.tree;
    assert l'.sockets[i := s] == l.sockets;
  }

  // ---------- replies ----------

  // The request that find_byreply makes up from a reply and the socket it came in on.
  function FromReply(s: Socket, reply: Packet): Packet {
    if s.proto == IPPROTO_TCP then Packet(reply.sockfd, reply.id, s.src, s.srcPort, s.dst, s.dstPort)
    else Packet(reply.sockfd, reply.id, if s.srcAny then s.src else reply.dst, s.srcPort, reply.src, reply.srcPort)
  }

  function Lookup<P>(l: List<P>, q: Packet): Option<P>
    requires SizedPacket(q)
  {
    if KnownPacket(q) && KeyOf(q) in l.tree then Some(l.tree[KeyOf(q)]) else None
  }

  // A reply with source and destination swapped. Its destination port does not matter, nor does its
  // destination address on a socket bound to any address; on a TCP socket only the descriptor and
  // the Identifier do.
  predicate Answers(s: Socket, reply: Packet, key: Packet)
    requires SizedPacket(reply)
  {
    && reply.sockfd == key.sockfd && reply.id == key.id
    && (s.proto == IPPROTO_TCP
        || (Canonical(reply.src) == key.dst && reply.srcPort == key.dstPort && (s.srcAny || Canonical(reply.dst) == key.src)))
  }

  // A TCP socket is connected to the destination of the request.
  predicate Connected(s: Socket, key: Packet)
    requires Sized(s.dst)
  {
    s.proto == IPPROTO_TCP ==> Canonical(s.dst) == key.dst && s.dstPort == key.dstPort
  }

  // A reply is mapped to exactly the outstanding request it answers, on a TCP socket if that is
  // connected to the destination of the request.
  lemma ReplyFindsIff<P>(l: List<P>, i: nat, key: Packet, reply: Packet)
    requires Inv(l) && key in l.tree && SocketAt(l, i, reply.sockfd) && SizedSocket(l.sockets[i]) && SizedPacket(reply)
    ensures var s := l.sockets[i]; KeyOf(FromReply(s, reply)) == key <==> Answers(s, reply, key) && Connected(s, key)
    ensures KeyOf(FromReply(l.sockets[i], reply)) == key ==> Lookup(l, FromReply(l.sockets[i], reply)) == Some(l.tree[key])
  {
    var s := l.sockets[i];
    assert Placed(l, key);
    if reply.sockfd == key.sockfd {
      PlacedAt(l, i, key);
      assert SocketOk(s);
    }
    if KeyOf(FromReply(s, reply)) == key {
      CanonicalKnown(FromReply(s, reply).src);
      CanonicalKnown(FromReply(s, reply).dst);
    }
  }

  lemma CanonicalKnown(a: Addr)
    requires Sized(a) && Known(Canonical(a))
    ensures Known(a)
  {
  }

  // Something is found exactly when the reply answers an outstanding request.
  lemma ReplyFoundIff<P>(l: List<P>, i: nat, reply: Packet)
    requires Inv(l) && SocketAt(l, i, reply.sockfd) && SizedSocket(l.sockets[i]) && SizedPacket(reply)
    ensures var s := l.sockets[i];
      Lookup(l, FromReply(s, reply)).Some? <==> exists key :: key in l.tree && Answers(s, reply, key) && Connected(s, key)
  {
    hide Inv, Answers, Connected;
    var s := l.sockets[i];
    var key := KeyOf(FromReply(s, reply));
    if Lookup(l, FromReply(s, reply)).Some? {
      ReplyFindsIff(l, i, key, reply);
    }
    forall other | other in l.tree && Answers(s, reply, other) && Connected(s, other)
      ensures Lookup(l, FromReply(s, reply)).Some?
    {
      ReplyFindsIff(l, i, other, reply);
    }
  }

  // Whatever a reply is mapped to has its descriptor and Identifier, so it is the only request it
  // could belong to, and on a UDP socket it was sent to where the reply came from.
  lemma ReplyFindsOnly<P>(l: List<P>, i: nat, reply: Packet)
    requires Inv(l) && SocketAt(l, i, reply.sockfd) && SizedSocket(l.sockets[i]) && SizedPacket(reply)
    ensures var s := l.sockets[i];
      var key := KeyOf(FromReply(s, reply));
      Lookup(l, FromReply(s, reply)).Some? ==>
        && key in l.tree
        && (forall other :: other in l.tree && other.sockfd == reply.sockfd && other.id == reply.id ==> other == key)
        && (s.proto != IPPROTO_TCP ==> key.dst == Canonical(reply.src) && key.dstPort == reply.srcPort)
  {
  }

  // ---------- where the code differs from what it is for ----------

  // socket_add gives up only after it has cleared the slot, which leaves descriptor 0 open in it. That
  // is the only way in which adding breaks the list.
  lemma AddKeepsIff<P>(l: List<P>, op: Op<P>, l': List<P>, ok: bool)
    requires Inv(l) && op.Add? && op.sockfd != -1 && !HasSocket(l, op.sockfd) && OpOk(op)
    requires Formed(l) && Step(l, op, l', ok)
    ensures Inv(l') <==> (Known(op.src) && Known(op.dst)) || op.dst.af == AF_UNSPEC || l.numSockets >= MAX_SOCKETS
  {
    if op.dst.af == AF_UNSPEC || l.numSockets >= MAX_SOCKETS {
    } else if Known(op.src) && Known(op.dst) {
      StepKeeps(l, op, l', ok);
    } else {
      FreeSlot(l.sockets);
      var s := Added(op.sockfd, op.proto, op.src, op.srcPort, op.dst, op.dstPort);
      var i :| AddsAt(l, i, s, false, l');
      CountUpdate(l.sockets, i, s);
    }
  }

  // Adding descriptor 7 to a new list, for a destination of family 1.
  lemma AddBreaksExample<P>(src: Addr)
    requires Known(src)
    ensures var op: Op<P> := Add(7, 17, src, 1812, ZeroAddr(1), 1812);
      var l' := WithSocket(Create<P>(), 0, Added(7, 17, src, 1812, ZeroAddr(1), 1812));
      && OpOk(op) && Formed(Create<P>()) && Step(Create<P>(), op, l', false)
      && l'.sockets[0].sockfd == 0 && l'.numSockets == 0 && !Inv(l')
  {
    var l := Create<P>();
    var op: Op<P> := Add(7, 17, src, 1812, ZeroAddr(1), 1812);
    var s := Added(7, 17, src, 1812, ZeroAddr(1), 1812);
    CreateInv<P>();
    assert SocketAt(l, 0, -1);
    assert AddsAt(l, 0, s, false, WithSocket(l, 0, s));
    AddKeepsIff(l, op, WithSocket(l, 0, s), false);
  }

  // ---------- the test for link-local sockets ----------

  // The socket is bound inside 127/8 and the destination is outside, and any source will do: what the
  // test is meant to stop.
  predicate Loopback(s: Socket, r: Request)
    requires SizedSocket(s) && SizedRequest(r)
  {
    InAddrAny(r.src) != 0 && s.src.af == AF_INET && s.src.bytes[0] == 127 && r.dst.bytes[0] != 127
  }

  // What the filters are meant to pass.
  predicate Intended(s: Socket, r: Request, proto: int)
    requires SizedSocket(s) && SizedRequest(r)
  {
    Matches(s, r, proto) && !Loopback(s, r)
  }

  // The filters do what they are meant to exactly when the test does not come into it, or the last
  // octets say the same as the first ones.
  lemma FilterRightIff(s: Socket, r: Request, proto: int)
    requires SizedSocket(s) && SizedRequest(r)
    ensures (Usable(s, r, proto) <==> Intended(s, r, proto)) <==>
      || !Matches(s, r, proto) || InAddrAny(r.src) == 0 || s.src.af != AF_INET
      || (s.src.bytes[3] == 127 && r.dst.bytes[3] != 127 <==> s.src.bytes[0] == 127 && r.dst.bytes[0] != 127)
  {
    hide Matches, InAddrAny;
  }

  // An allocation for a destination outside 127/8 can land on a socket that is bound inside
  // exactly when such a socket matches, has room, and has not 127 as its last octet
  // unless the destination has it too.
  lemma AllocStraysIff<P>(l: List<P>, r: Request, proto: int, p: P)
    requires Inv(l) && Formed(l) && SizedRequest(r) && ArgumentsOk(r)
    ensures (exists i, n :: LandsOn(l, i, n, r, proto, p) && !Intended(l.sockets[i], Prepared(r), proto)) <==>
      exists i :: 0 <= i < |l.sockets| && Strays(l.sockets[i], Prepared(r), proto)
  {
    hide Inv, ArgumentsOk, Prepared, InAddrAny, Matches, CanAlloc;
    var q := Prepared(r);
    forall i, n | LandsOn(l, i, n, r, proto, p) && !Intended(l.sockets[i], q, proto)
      ensures Strays(l.sockets[i], q, proto)
    {
      RoomIff(l, i, q, proto);
    }
    if i :| 0 <= i < |l.sockets| && Strays(l.sockets[i], q, proto) {
      RoomIff(l, i, q, proto);
      var n :| CanAlloc(l, i, n, q, proto);
      CanBounds(l, i, n, q, proto);
      LandsThere(l, i, n, r, proto, p);
    }
  }

  lemma CanBounds<P>(l: List<P>, i: int, n: int, r: Request, proto: int)
    requires Formed(l) && SizedRequest(r) && CanAlloc(l, i, n, r, proto)
    ensures 0 <= i < |l.sockets| && 0 <= n < 256
  {
  }

  // The allocation may take Identifier n of socket i.
  ghost predicate LandsOn<P>(l: List<P>, i: int, n: int, r: Request, proto: int, p: P)
    requires Formed(l) && SizedRequest(r)
  {
    && 0 <= i < |l.sockets| && 0 <= n < 256 && CanAlloc(l, i, n, Prepared(r), proto)
    && Step(l, Alloc(r, proto, p), AllocAt(l, i, n, r, p), true)
  }

  lemma LandsThere<P>(l: List<P>, i: nat, n: nat, r: Request, proto: int, p: P)
    requires Formed(l) && SizedRequest(r) && ArgumentsOk(r) && i < |l.sockets| && n < 256 && CanAlloc(l, i, n, Prepared(r), proto)
    ensures LandsOn(l, i, n, r, proto, p)
  {
    hide CanAlloc, AllocAt, ArgumentsOk, Prepared;
  }

  predicate Strays(s: Socket, r: Request, proto: int)
    requires SizedSocket(s) && SizedRequest(r)
  {
    && Matches(s, r, proto) && s.numOutgoing < 256 && Loopback(s, r)
    && (s.src.bytes[3] == 127 ==> r.dst.bytes[3] == 127)
  }

  // An allocation fails although a socket that is meant to pass has room, exactly when there is one and
  // every socket that matches and has room is stopped for its last octet.
  lemma AllocMissesIff<P>(l: List<P>, r: Request, proto: int, p: P, l': List<P>, ok: bool)
    requires Inv(l) && SizedRequest(r) && ArgumentsOk(r) && Formed(l) && Step(l, Alloc(r, proto, p), l', ok)
    ensures var q := Prepared(r);
      (!ok && exists i :: 0 <= i < |l.sockets| && Meant(l.sockets[i], q, proto)) <==>
        && (exists i :: 0 <= i < |l.sockets| && Meant(l.sockets[i], q, proto))
        && r.dst.bytes[3] != 127
        && forall i :: 0 <= i < |l.sockets| && Matches(l.sockets[i], q, proto) && l.sockets[i].numOutgoing < 256 ==>
             InAddrAny(q.src) != 0 && l.sockets[i].src.af == AF_INET && l.sockets[i].src.bytes[3] == 127
  {
    hide Inv, ArgumentsOk, InAddrAny, Matches, Step;
    AllocSucceedsIff(l, r, proto, p, l', ok);
    assert Prepared(r).dst == r.dst;
  }

  // The socket is meant to pass, and has room.
  predicate Meant(s: Socket, r: Request, proto: int)
    requires SizedSocket(s) && SizedRequest(r)
  {
    Intended(s, r, proto) && s.numOutgoing < 256
  }

  // Two such sockets: the test passes one on 127.0.0.1 and stops one on 10.0.0.127.
  lemma LoopbackTestReadsLastOctet(s: Socket, r: Request, proto: int)
    requires SizedSocket(s) && SizedRequest(r) && Usable(s, r, proto) && InAddrAny(r.src) == 1
    requires s.src.af == AF_INET && !s.srcAny && r.dst.bytes[0] != 127 && r.dst.bytes[3] != 127
    ensures var inside := s.(src := Addr(AF_INET, 32, [127, 0, 0, 1] + seq(12, _ => 0), 0));
      Usable(inside, r, proto) && !Intended(inside, r, proto)
    ensures var outside := s.(src := Addr(AF_INET, 32, [10, 0, 0, 127] + seq(12, _ => 0), 0));
      !Usable(outside, r, proto) && Intended(outside, r, proto)
  {
    hide AddrCmp;
    var inside := s.(src := Addr(AF_INET, 32, [127, 0, 0, 1] + seq(12, _ => 0), 0));
    var outside := s.(src := Addr(AF_INET, 32, [10, 0, 0, 127] + seq(12, _ => 0), 0));
    FilterRightIff(inside, r, proto);
    FilterRightIff(outside, r, proto);
  }
}
