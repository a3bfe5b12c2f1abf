// What each call on the packet list does, field by field: which socket an allocation may take and what it
// writes where, and when the other calls succeed and what they change.
module PacketCalls {
  import opened Options
  import opened PacketOrder
  import opened PacketIds
  import opened PacketSpec
  import opened PacketTheorems

  // All bytes of the address are zero: four for IPv4, sixteen for IPv6.
  predicate Wildcard(a: Addr)
    requires Sized(a)
  {
    (a.af == 2 && a.bytes[0] == a.bytes[1] == a.bytes[2] == a.bytes[3] == 0)
    || (a.af == 10 && forall k :: 0 <= k < 16 ==> a.bytes[k] == 0)
  }

  lemma WildcardIs(a: Addr)
    requires Sized(a)
    ensures InAddrAny(a) == if !Known(a) then -1 else if Wildcard(a) then 1 else 0
  {
    assert forall k :: 0 <= k < 4 ==> a.bytes[..4][k] == a.bytes[k];
    if Wildcard(a) {
      assert a.af == AF_INET ==> a.bytes[..4] == seq(4, _ => 0);
      assert a.af == AF_INET6 ==> a.bytes == seq(16, _ => 0);
    }
  }

  // No particular source is asked for.
  predicate AnySource(r: Request)
    requires SizedRequest(r)
  {
    r.src.af == 0 || Wildcard(r.src)
  }

  lemma PreparedSource(r: Request)
    requires SizedRequest(r) && Known(r.dst)
    ensures InAddrAny(Prepared(r).src) != 0 <==> AnySource(r) || !Known(r.src)
    ensures InAddrAny(Prepared(r).src) >= 0 <==> r.src.af == 0 || Known(r.src)
    ensures Prepared(r).srcPort == r.srcPort && Prepared(r).dstPort == r.dstPort
    ensures r.src.af != 0 ==> Prepared(r) == r
  {
    WildcardIs(r.src);
    WildcardIs(Prepared(r).src);
  }

  // ---------- id_alloc ----------

  // What the request needs for id_alloc to look at the sockets.
  lemma ArgumentsIff(r: Request)
    requires SizedRequest(r)
    ensures ArgumentsOk(r) <==>
      && (r.dst.af == 2 || r.dst.af == 10) && !Wildcard(r.dst) && r.dstPort != 0
      && (r.src.af == 0 || r.src.af == 2 || r.src.af == 10)
  {
    WildcardIs(r.dst);
    if Known(r.dst) {
      PreparedSource(r);
    }
  }

  // A socket passes the filters exactly when it is open and not frozen, of the protocol and of the family
  // of the destination, with the ports and addresses that are asked for or wildcards, and is not stopped
  // for its last octet.
  lemma UsableIff(s: Socket, r: Request, proto: int)
    requires SocketOk(s) && SizedRequest(r) && ArgumentsOk(r)
    ensures Usable(s, Prepared(r), proto) <==>
      && s.sockfd != -1 && !s.dontUse && s.proto == proto && s.src.af == r.dst.af
      && (r.srcPort == 0 || s.srcPort == r.srcPort)
      && (s.dstPort == 0 || s.dstPort == r.dstPort)
      && (AnySource(r) || Canonical(s.src) == Canonical(r.src))
      && (Wildcard(s.dst) || Canonical(s.dst) == Canonical(r.dst))
      && !(AnySource(r) && s.src.af == 2 && s.src.bytes[3] == 127 && r.dst.bytes[3] != 127)
  {
    hide Canonical, AddrCmp, InAddrAny;
    ArgumentsIff(r);
    PreparedSource(r);
    WildcardIs(s.src);
    WildcardIs(s.dst);
    AddrCmpIff(r.dst, s.dst);
    AddrCmpIff(Prepared(r).src, s.src);
    CanonicalWildcard(s.src, r.src);
  }

  lemma CanonicalWildcard(a: Addr, b: Addr)
    requires Sized(a) && Sized(b)
    ensures Canonical(a) == Canonical(b) ==> (Wildcard(a) <==> Wildcard(b))
  {
    if Canonical(a) == Canonical(b) && a.af == AF_INET {
      assert forall k :: 0 <= k < 4 ==> a.bytes[k] == Canonical(a).bytes[k] == Canonical(b).bytes[k] == b.bytes[k];
    }
  }

  // An allocation that succeeds takes an Identifier that is free on a socket that the request may use, and
  // changes nothing but that socket's map and counter, the total, and the tree.
  lemma AllocTakes<P>(l: List<P>, r: Request, proto: int, p: P, l': List<P>) returns (i: nat, n: nat)
    requires Inv(l) && Formed(l) && SizedRequest(r) && Step(l, Alloc(r, proto, p), l', true)
    ensures (r.dst.af == 2 || r.dst.af == 10) && !Wildcard(r.dst) && r.dstPort != 0
    ensures r.src.af == 0 || r.src.af == 2 || r.src.af == 10
    ensures i < |l.sockets| && n < 256 && SizedSocket(l.sockets[i])
    ensures var s := l.sockets[i];
      && s.sockfd != -1 && !s.dontUse && s.proto == proto && s.src.af == r.dst.af
      && (r.srcPort == 0 || s.srcPort == r.srcPort)
      && (s.dstPort == 0 || s.dstPort == r.dstPort)
      && (AnySource(r) || Canonical(s.src) == Canonical(r.src))
      && (Wildcard(s.dst) || Canonical(s.dst) == Canonical(r.dst))
      && !(AnySource(r) && s.src.af == 2 && s.src.bytes[3] == 127 && r.dst.bytes[3] != 127)
      && !Taken(s.ids, n) && s.numOutgoing < 256
    ensures var s := l.sockets[i];
      && l'.sockets == l.sockets[i := s.(ids := SetId(s.ids, n), numOutgoing := s.numOutgoing + 1)]
      && l'.numSockets == l.numSockets && l'.numOutgoing == l.numOutgoing + 1
      && l'.tree == l.tree[Packet(s.sockfd, n, Canonical(s.src), s.srcPort, Canonical(r.dst), r.dstPort) := p]
  {
    hide Usable, Canonical;
    i, n :| CanAlloc(l, i, n, Prepared(r), proto) && l' == AllocAt(l, i, n, r, p);
    assert SocketOk(l.sockets[i]);
    UsableIff(l.sockets[i], r, proto);
    ArgumentsIff(r);
    AllTakenIff(l.sockets[i].ids);
  }

  // When there is such a socket with fewer than 256 requests outstanding, the allocation succeeds.
  lemma AllocServes<P>(l: List<P>, r: Request, proto: int, p: P, l': List<P>, ok: bool, i: nat)
    requires Inv(l) && Formed(l) && SizedRequest(r) && Step(l, Alloc(r, proto, p), l', ok)
    requires (r.dst.af == 2 || r.dst.af == 10) && !Wildcard(r.dst) && r.dstPort != 0
    requires r.src.af == 0 || r.src.af == 2 || r.src.af == 10
    requires i < |l.sockets| && SizedSocket(l.sockets[i])
    requires var s := l.sockets[i];
      && s.sockfd != -1 && !s.dontUse && s.proto == proto && s.src.af == r.dst.af
      && (r.srcPort == 0 || s.srcPort == r.srcPort)
      && (s.dstPort == 0 || s.dstPort == r.dstPort)
      && (AnySource(r) || Canonical(s.src) == Canonical(r.src))
      && (Wildcard(s.dst) || Canonical(s.dst) == Canonical(r.dst))
      && !(AnySource(r) && s.src.af == 2 && s.src.bytes[3] == 127 && r.dst.bytes[3] != 127)
      && s.numOutgoing < 256
    ensures ok
  {
    hide Usable, Canonical;
    assert SocketOk(l.sockets[i]);
    ArgumentsIff(r);
    UsableIff(l.sockets[i], r, proto);
    AllocSucceedsIff(l, r, proto, p, l', ok);
    assert HasRoom(l.sockets[i], Prepared(r), proto);
  }

  // ---------- the other calls ----------

  lemma CreateEffect<P>()
    ensures var l := Create<P>();
      && |l.sockets| == 1024 && l.numSockets == 0 && l.numOutgoing == 0 && l.tree == map[]
      && (var none := Addr(0, 0, seq(16, _ => 0), 0);
          forall i :: 0 <= i < 1024 ==>
            l.sockets[i] == Socket(-1, 0, false, none, 0, false, none, 0, false, 0, seq(32, _ => 0)))
  {
  }

  // A socket is added exactly when its families are known and a slot is free, and then the slot holds what
  // was given and nothing else. Otherwise nothing happens, or a slot is left open with descriptor 0.
  lemma AddEffect<P>(l: List<P>, fd: int, proto: int, src: Addr, srcPort: nat, dst: Addr, dstPort: nat, l': List<P>, ok: bool)
    returns (i: nat)
    requires Inv(l) && Formed(l) && Sized(dst) && Step(l, Add(fd, proto, src, srcPort, dst, dstPort), l', ok)
    ensures ok <==> Known(src) && Known(dst) && l.numSockets < 1024
    ensures !ok && (dst.af == 0 || l.numSockets >= 1024) ==> l' == l
    ensures !ok && dst.af != 0 && l.numSockets < 1024 ==>
      && i < |l.sockets| && l.sockets[i].sockfd == -1 && |l'.sockets| == |l.sockets|
      && l' == l.(sockets := l.sockets[i := l'.sockets[i]])
      && l'.sockets[i].sockfd == 0 && l'.sockets[i].numOutgoing == 0 && !l'.sockets[i].dontUse
    ensures ok ==>
      && i < |l.sockets| && l.sockets[i].sockfd == -1 && |l'.sockets| == |l.sockets|
      && l' == l.(sockets := l.sockets[i := l'.sockets[i]], numSockets := l.numSockets + 1)
      && var s := l'.sockets[i];
        && s.sockfd == fd && s.proto == proto && s.src == src && s.srcPort == srcPort && s.dst == dst && s.dstPort == dstPort
        && (s.srcAny <==> Wildcard(src)) && (s.dstAny <==> Wildcard(dst)) && !s.dontUse && s.numOutgoing == 0
        && |s.ids| == 32 && forall n: nat :: n < 256 ==> !Taken(s.ids, n)
  {
    FreeSlot(l.sockets);
    WildcardIs(dst);
    i := 0;
    if Known(src) && Known(dst) && l.numSockets < 1024 {
      WildcardIs(src);
      var s := Added(fd, proto, src, srcPort, dst, dstPort);
      i :| AddsAt(l, i, s, true, l');
      ClearedIds();
      assert forall n: nat :: n < 256 ==> n !in Used(s.ids);
    } else if dst.af != 0 && l.numSockets < 1024 {
      i :| AddsAt(l, i, Added(fd, proto, src, srcPort, dst, dstPort), false, l');
    }
  }

  // Freezing marks the socket with the descriptor, thawing takes the mark away, and both fail exactly when
  // there is none.
  lemma FreezeEffect<P>(l: List<P>, fd: int, l': List<P>, ok: bool)
    requires Formed(l) && Step(l, Freeze(fd), l', ok)
    ensures ok <==> exists i :: 0 <= i < |l.sockets| && l.sockets[i].sockfd == fd
    ensures if ok then exists i :: 0 <= i < |l.sockets| && l.sockets[i].sockfd == fd
                                   && l' == l.(sockets := l.sockets[i := l.sockets[i].(dontUse := true)])
            else l' == l
  {
    if ok {
      var i :| SocketAt(l, i, fd) && l' == WithSocket(l, i, l.sockets[i].(dontUse := true));
      assert l.sockets[i].sockfd == fd;
    }
  }

  lemma ThawEffect<P>(l: List<P>, fd: int, l': List<P>, ok: bool)
    requires Formed(l) && Step(l, Thaw(fd), l', ok)
    ensures ok <==> exists i :: 0 <= i < |l.sockets| && l.sockets[i].sockfd == fd
    ensures if ok then exists i :: 0 <= i < |l.sockets| && l.sockets[i].sockfd == fd
                                   && l' == l.(sockets := l.sockets[i := l.sockets[i].(dontUse := false)])
            else l' == l
  {
    if ok {
      var i :| SocketAt(l, i, fd) && l' == WithSocket(l, i, l.sockets[i].(dontUse := false));
      assert l.sockets[i].sockfd == fd;
    }
  }

  // A socket is taken out exactly when it has nothing outstanding, and then its slot is free again.
  lemma DeleteEffect<P>(l: List<P>, fd: int, l': List<P>, ok: bool)
    requires Inv(l) && Formed(l) && fd != -1 && Step(l, Delete(fd), l', ok)
    ensures ok <==> exists i :: 0 <= i < |l.sockets| && l.sockets[i].sockfd == fd && l.sockets[i].numOutgoing == 0
    ensures if ok then
              && l'.numSockets == l.numSockets - 1 && l'.numOutgoing == l.numOutgoing && l'.tree == l.tree
              && (exists i :: 0 <= i < |l.sockets| && l.sockets[i].sockfd == fd
                              && l'.sockets == l.sockets[i := l.sockets[i].(sockfd := -1)])
              && forall i :: 0 <= i < |l'.sockets| ==> l'.sockets[i].sockfd != fd
            else l' == l
  {
    hide AllPlaced, AllHeld, AllDistinct, SocketOk, Outgoing, OpenCount;
    if ok {
      var i :| DeletesAt(l, i, fd, l');
      assert l.sockets[i].sockfd == fd;
    } else if i :| 0 <= i < |l.sockets| && l.sockets[i].sockfd == fd {
      var j :| SocketAt(l, j, fd) && l.sockets[j].numOutgoing != 0;
      OneSlot(l, i, j);
    }
  }

  // An outstanding request can always be freed, which clears its bit, its place in the tree and one from
  // both counters, and nothing else.
  lemma FreeEffect<P>(l: List<P>, key: Packet, l': List<P>, ok: bool)
    requires Inv(l) && Formed(l) && Step(l, Free(key), l', ok)
    ensures ok <==> key in l.tree
    ensures if ok then
              && l'.tree == l.tree - {key} && l'.numOutgoing == l.numOutgoing - 1 && l'.numSockets == l.numSockets
              && exists i :: 0 <= i < |l.sockets| && Freeing(l.sockets[i], key)
                             && l'.sockets == l.sockets[i := l.sockets[i].(ids := ClearId(l.sockets[i].ids, key.id),
                                                                           numOutgoing := l.sockets[i].numOutgoing - 1)]
            else l' == l
  {
    hide Bit, ClearId, Octet;
    if key in l.tree {
      assert Placed(l, key);
      var k :| 0 <= k < |l.sockets| && OnSlot(l.sockets[k], key);
      assert HasSocket(l, key.sockfd);
      OctetIs(key.id);
      var i :| SocketAt(l, i, key.sockfd) && l' == FreeAt(l, i, key);
      OneSlot(l, i, k);
      assert Freeing(l.sockets[i], key);
    }
  }

  // The socket on which the request has its Identifier.
  predicate Freeing(s: Socket, key: Packet) {
    |s.ids| == 32 && 0 <= key.id < 256 && s.sockfd == key.sockfd && Taken(s.ids, key.id)
  }

  // ---------- find_byreply ----------

  // What is looked up: the socket's own addresses for TCP, which is protocol 6; otherwise the socket's source
  // if it is a wildcard, and the reply's destination if not, the socket's source port, and where the reply
  // came from.
  lemma ReplyLooksUp<P>(l: List<P>, i: nat, reply: Packet)
    requires Inv(l) && i < |l.sockets| && l.sockets[i].sockfd == reply.sockfd != -1 && SizedPacket(reply)
    ensures SizedSocket(l.sockets[i])
    ensures var s := l.sockets[i];
      var key := Packet(reply.sockfd, reply.id,
                        if s.proto == 6 || Wildcard(s.src) then Canonical(s.src) else Canonical(reply.dst), s.srcPort,
                        if s.proto == 6 then Canonical(s.dst) else Canonical(reply.src),
                        if s.proto == 6 then s.dstPort else reply.srcPort);
      Lookup(l, FromReply(s, reply)) == if key in l.tree then Some(l.tree[key]) else None
  {
    hide Canonical;
    var s := l.sockets[i];
    assert SocketOk(s);
    WildcardIs(s.src);
    var q := FromReply(s, reply);
    if KeyOf(q) in l.tree {
      assert Placed(l, KeyOf(q));
      CanonicalKnown(q.src);
      CanonicalKnown(q.dst);
    }
  }
}
