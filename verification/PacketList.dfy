// The packet list of packet.c with its loops: probing the socket table, searching the sockets and
// the Identifier maps from random starting points, and updating everything in place. The methods are
// proved to do what PacketSpec says.
module PacketList {
  import opened Options
  import opened PacketOrder
  import opened PacketIds
  import opened PacketSpec
  import opened PacketTheorems

  const FNV_MAGIC_PRIME: int := 0x01000193

  // SOCK2OFFSET
  function Offset(fd: int): (i: nat)
    ensures i < MAX_SOCKETS
  {
    fd * FNV_MAGIC_PRIME % MAX_SOCKETS
  }

  // (start + n) & (size - 1) for n below size
  function Wrap(start: nat, n: nat, size: nat): nat
    requires start < size && n <= size
  {
    if start + n < size then start + n else start + n - size
  }

  class RadiusPacket {
    var sockfd: int
    var id: int
    var src: Addr
    var srcPort: nat
    var dst: Addr
    var dstPort: nat

    constructor (sockfd: int, id: int, src: Addr, srcPort: nat, dst: Addr, dstPort: nat)
      ensures Fields() == Packet(sockfd, id, src, srcPort, dst, dstPort)
    {
      this.sockfd, this.id, this.src, this.srcPort, this.dst, this.dstPort := sockfd, id, src, srcPort, dst, dstPort;
    }

    function Fields(): Packet
      reads this
    {
      Packet(sockfd, id, src, srcPort, dst, dstPort)
    }

    function Wanted(): Request
      reads this
    {
      Request(src, srcPort, dst, dstPort)
    }
  }

  class PacketList {
    var sockets: array<Socket>
    var numSockets: int
    var numOutgoing: int
    var tree: map<Packet, RadiusPacket>

    ghost function Value(): List<RadiusPacket>
      reads this, sockets
    {
      List(sockets[..], numSockets, numOutgoing, tree)
    }

    // fr_packet_list_create
    constructor ()
      ensures Value() == Create() && fresh(sockets)
    {
      var slots := new Socket[MAX_SOCKETS](_ => Cleared(-1));
      sockets, numSockets, numOutgoing, tree := slots, 0, 0, map[];
      new;
      assert sockets[..] == Create<RadiusPacket>().sockets;
    }

    // fr_socket_find
    method SocketFind(fd: int) returns (r: Option<nat>)
      requires sockets.Length == MAX_SOCKETS
      ensures r.Some? ==> SocketAt(Value(), r.value, fd)
      ensures r.None? ==> !HasSocket(Value(), fd)
    {
      var start := Offset(fd);
      var i := start;
      ghost var n := 0;
      while true
        invariant 0 <= n < MAX_SOCKETS && i == Wrap(start, n, MAX_SOCKETS)
        invariant forall m :: 0 <= m < n ==> sockets[Wrap(start, m, MAX_SOCKETS)].sockfd != fd
        decreases MAX_SOCKETS - n
      {
        if sockets[i].sockfd == fd { return Some(i); }
        i := (i + 1) % MAX_SOCKETS;
        n := n + 1;
        if i == start { break; }
      }
      forall j | 0 <= j < MAX_SOCKETS
        ensures sockets[j].sockfd != fd
      {
        assert j == Wrap(start, if j >= start then j - start else j + MAX_SOCKETS - start, MAX_SOCKETS);
      }
      r := None;
    }

    method SetSocket(i: nat, s: Socket)
      requires i < sockets.Length
      modifies sockets
      ensures sockets[..] == old(sockets[..])[i := s]
      ensures Value() == WithSocket(old(Value()), i, s)
    {
      sockets[i] := s;
    }

    // fr_packet_list_socket_freeze
    method Freeze(fd: int) returns (ok: bool)
      requires Formed(Value())
      modifies sockets
      ensures Step(old(Value()), PacketSpec.Freeze(fd), Value(), ok)
    {
      var i := SocketFind(fd);
      if i.None? { return false; }
      SetSocket(i.value, sockets[i.value].(dontUse := true));
      assert SocketAt(old(Value()), i.value, fd);
      return true;
    }

    // fr_packet_list_socket_thaw
    method Thaw(fd: int) returns (ok: bool)
      requires Formed(Value())
      modifies sockets
      ensures Step(old(Value()), PacketSpec.Thaw(fd), Value(), ok)
    {
      var i := SocketFind(fd);
      if i.None? { return false; }
      SetSocket(i.value, sockets[i.value].(dontUse := false));
      assert SocketAt(old(Value()), i.value, fd);
      return true;
    }

    // fr_packet_list_socket_del
    method Delete(fd: int) returns (ok: bool)
      requires Formed(Value())
      modifies this`numSockets, sockets
      ensures Step(old(Value()), PacketSpec.Delete(fd), Value(), ok)
    {
      var i := SocketFind(fd);
      if i.None? { return false; }
      if sockets[i.value].numOutgoing != 0 {
        assert SocketAt(Value(), i.value, fd);
        return false;
      }
      SetSocket(i.value, sockets[i.value].(sockfd := -1));
      numSockets := numSockets - 1;
      assert DeletesAt(old(Value()), i.value, fd, Value());
      return true;
    }

    // fr_packet_list_socket_add; src and srcPort are what getsockname returns, with an unknown family
    // when it fails.
    method Add(fd: int, proto: int, dst: Addr, dstPort: nat, src: Addr, srcPort: nat) returns (ok: bool)
      requires Formed(Value()) && Sized(dst)
      modifies this`numSockets, sockets
      ensures Step(old(Value()), PacketSpec.Add(fd, proto, src, srcPort, dst, dstPort), Value(), ok)
    {
      if dst.af == AF_UNSPEC { return false; }
      if numSockets >= MAX_SOCKETS { return false; }
      var i := SlotFind(fd);
      if i.None? { return false; }
      ghost var l := Value();
      ok := FillSlot(i.value, fd, proto, dst, dstPort, src, srcPort);
      if ok {
        numSockets := numSockets + 1;
      }
      assert AddsAt(l, i.value, Added(fd, proto, src, srcPort, dst, dstPort), ok, Value());
    }

    // The first free slot from the descriptor's own place on.
    method SlotFind(fd: int) returns (r: Option<nat>)
      requires sockets.Length == MAX_SOCKETS
      ensures r.Some? ==> SocketAt(Value(), r.value, -1)
      ensures r.None? ==> !HasSocket(Value(), -1)
    {
      var start := Offset(fd);
      var i := start;
      ghost var n := 0;
      while true
        invariant 0 <= n < MAX_SOCKETS && i == Wrap(start, n, MAX_SOCKETS)
        invariant forall m :: 0 <= m < n ==> sockets[Wrap(start, m, MAX_SOCKETS)].sockfd != -1
        decreases MAX_SOCKETS - n
      {
        if sockets[i].sockfd == -1 { return Some(i); }
        i := (i + 1) % MAX_SOCKETS;
        n := n + 1;
        if i == start { break; }
      }
      forall j | 0 <= j < MAX_SOCKETS
        ensures sockets[j].sockfd != -1
      {
        assert j == Wrap(start, if j >= start then j - start else j + MAX_SOCKETS - start, MAX_SOCKETS);
      }
      r := None;
    }

    method FillSlot(i: nat, fd: int, proto: int, dst: Addr, dstPort: nat, src: Addr, srcPort: nat) returns (ok: bool)
      requires i < sockets.Length && Sized(dst)
      modifies sockets
      ensures ok == (Known(src) && Known(dst))
      ensures Value() == WithSocket(old(Value()), i, Added(fd, proto, src, srcPort, dst, dstPort))
    {
      var s := Cleared(0).(proto := proto);
      if !Known(src) {
        SetSocket(i, s);
        return false;
      }
      s := s.(src := src, srcPort := srcPort);
      s := s.(dst := dst, dstPort := dstPort);
      s := s.(srcAny := InAddrAny(s.src) != 0);
      var any := InAddrAny(s.dst);
      if any >= 0 {
        s := s.(dstAny := any != 0, sockfd := fd);
      }
      SetSocket(i, s);
      return any >= 0;
    }

    // fr_packet_list_insert: rbtree_insert refuses a packet that compares equal to one in the tree.
    method Insert(request: RadiusPacket) returns (ok: bool)
      requires KnownPacket(request.Fields())
      modifies this`tree
      ensures ok <==> KeyOf(request.Fields()) !in old(tree)
      ensures tree == if ok then old(tree)[KeyOf(request.Fields()) := request] else old(tree)
    {
      var key := KeyOf(request.Fields());
      ok := key !in tree;
      if ok {
        tree := tree[key := request];
      }
    }

    // fr_packet_list_yank: a packet with an unknown family is never found.
    method Yank(request: RadiusPacket) returns (ok: bool)
      requires SizedPacket(request.Fields())
      modifies this`tree
      ensures ok <==> InTree(old(tree), request.Fields())
      ensures tree == if ok then old(tree) - {KeyOf(request.Fields())} else old(tree)
    {
      var key := KeyOf(request.Fields());
      ok := Known(request.src) && Known(request.dst) && key in tree;
      if ok {
        tree := tree - {key};
      }
    }

    // The search of one byte of a map, from a random bit on.
    method FreeBit(b: bv8) returns (k: Option<Index8>)
      ensures k.Some? ==> !Bit(b, k.value)
      ensures k.None? ==> forall m: Index8 :: Bit(b, m)
    {
      var start: nat :| start < 8;
      var i := 0;
      while i < 8
        invariant 0 <= i <= 8
        invariant forall n :: 0 <= n < i ==> Bit(b, Wrap(start, n, 8))
      {
        var m := Wrap(start, i, 8);
        if b & Mask(m) == 0 { return Some(m); }
        i := i + 1;
      }
      forall m: Index8
        ensures Bit(b, m)
      {
        assert m == Wrap(start, if m >= start then m - start else m + 8 - start, 8);
      }
      k := None;
    }

    // The search of a socket's map, from a random byte on: a free Identifier, if there is one.
    method FreeId(ids: IdMap) returns (r: Option<nat>)
      requires |ids| == 32
      ensures r.Some? ==> r.value < 256 && !Taken(ids, r.value)
      ensures r.None? ==> forall n: nat :: n < 256 ==> Taken(ids, n)
    {
      var start: nat :| start < 32;
      var j := 0;
      while j < 32
        invariant 0 <= j <= 32
        invariant forall n :: 0 <= n < j ==> ids[Wrap(start, n, 32)] == 0xff
      {
        var m := Wrap(start, j, 32);
        if ids[m] != 0xff {
          var k := FreeBit(ids[m]);
          FullByte(ids[m]);
          return Some(m * 8 + k.value);
        }
        j := j + 1;
      }
      forall n: nat | n < 256
        ensures Taken(ids, n)
      {
        var m := n / 8;
        assert m == Wrap(start, if m >= start then m - start else m + 32 - start, 32);
        FullByte(ids[m]);
      }
      r := None;
    }

    // The search of the sockets, from a random slot on.
    method FreeSocket(r: Request, proto: int) returns (slot: Option<nat>, id: nat)
      requires SocketsOk(Value()) && SizedRequest(r)
      ensures slot.Some? ==> CanAlloc(Value(), slot.value, id, r, proto)
      ensures slot.None? ==> NoneFree(Value(), r, proto)
    {
      var start: nat :| start < MAX_SOCKETS;
      var i := 0;
      id := 0;
      while i < MAX_SOCKETS
        invariant 0 <= i <= MAX_SOCKETS
        invariant forall n :: 0 <= n < i ==> Barren(sockets[..], Wrap(start, n, MAX_SOCKETS), r, proto)
      {
        var m := Wrap(start, i, MAX_SOCKETS);
        var found := TrySocket(m, r, proto);
        if found.Some? { return Some(m), found.value; }
        i := i + 1;
      }
      forall m: nat | m < MAX_SOCKETS
        ensures Barren(sockets[..], m, r, proto)
      {
        assert m == Wrap(start, if m >= start then m - start else m + MAX_SOCKETS - start, MAX_SOCKETS);
      }
      forall m, n
        ensures !CanAlloc(Value(), m, n, r, proto)
      {
        assert 0 <= m < MAX_SOCKETS ==> Barren(sockets[..], m, r, proto);
      }
      slot := None;
    }

    // One socket of that search: its counter, the filters, and its map.
    method TrySocket(m: nat, r: Request, proto: int) returns (id: Option<nat>)
      requires SocketsOk(Value()) && m < MAX_SOCKETS && SizedRequest(r)
      ensures id.Some? ==> CanAlloc(Value(), m, id.value, r, proto)
      ensures id.None? ==> Barren(sockets[..], m, r, proto)
    {
      var s := sockets[m];
      assert SocketOk(Value().sockets[m]);
      AllTakenIff(s.ids);
      if s.numOutgoing == 256 { return None; }
      var usable := Passes(s, r, proto);
      if !usable { return None; }
      id := FreeId(s.ids);
    }

    // The filters, in the order in which they are tried.
    method Passes(s: Socket, r: Request, proto: int) returns (ok: bool)
      requires SizedSocket(s) && SizedRequest(r)
      ensures ok <==> Usable(s, r, proto)
    {
      var srcAny := InAddrAny(r.src) != 0;
      if s.sockfd == -1 { return false; }
      if s.dontUse { return false; }
      if s.proto != proto { return false; }
      if s.src.af != r.dst.af { return false; }
      if s.dstPort != 0 && s.dstPort != r.dstPort { return false; }
      if r.srcPort != 0 && s.srcPort != r.srcPort { return false; }
      if srcAny && s.src.af == AF_INET && HighByte(s.src) == 127 && HighByte(r.dst) != 127 { return false; }
      if s.srcAny && !srcAny { return false; }
      if !s.srcAny && !srcAny && AddrCmp(r.src, s.src) != 0 { return false; }
      if !s.dstAny && AddrCmp(r.dst, s.dst) != 0 { return false; }
      return true;
    }

    // fr_packet_list_id_alloc
    method IdAlloc(request: RadiusPacket, proto: int) returns (ok: bool)
      requires Formed(Value()) && Inv(Value()) && Sized(request.src) && Sized(request.dst)
      modifies this`numOutgoing, this`tree, sockets, request
      ensures Step(old(Value()), Alloc(old(request.Wanted()), proto, request), Value(), ok)
      ensures Inv(Value())
      ensures ok ==> Inserted(old(tree), request.Fields(), request, tree)
      ensures !ok ==> request.Fields() in {old(request.Fields()), WithSource(old(request.Fields()))}
    {
      ghost var l, w := Value(), request.Wanted();
      if request.dst.af == AF_UNSPEC || request.dstPort == 0 { return false; }
      Unspecified(request);
      if InAddrAny(request.src) < 0 { return false; }
      if InAddrAny(request.dst) != 0 { return false; }
      var r := request.Wanted();
      var slot, id := FreeSocket(r, proto);
      if slot.None? { return false; }
      NoCollision(l, slot.value, id, w);
      AllocKeeps(l, slot.value, id, w, proto, request);
      ok := Assign(slot.value, id, request, w);
    }

    // An unspecified source becomes any address of the destination's family.
    method Unspecified(request: RadiusPacket)
      requires Sized(request.src) && Sized(request.dst)
      modifies request`src
      ensures request.Wanted() == Prepared(old(request.Wanted()))
    {
      if request.src.af == AF_UNSPEC {
        request.src := ZeroAddr(request.dst.af);
      }
    }

    // Marking the Identifier, assigning it, and inserting the request; if that fails, the list is
    // as it was.
    method Assign(i: nat, id: nat, request: RadiusPacket, ghost w: Request) returns (ok: bool)
      requires Formed(Value()) && i < sockets.Length && id < 256 && !Taken(sockets[i].ids, id)
      requires SizedRequest(w) && request.dst == w.dst && request.dstPort == w.dstPort
      requires Known(sockets[i].src) && Known(w.dst)
      modifies this`numOutgoing, this`tree, sockets, request
      ensures ok <==> KeyOf(Assigned(old(sockets[i]), id, w)) !in old(tree)
      ensures Value() == if ok then AllocAt(old(Value()), i, id, w, request) else old(Value())
      ensures ok ==> request.Fields() == Assigned(old(sockets[i]), id, w)
    {
      hide SetId, ClearId, KeyOf, Bit;
      ghost var l, s := Value(), sockets[i];
      SetSocket(i, sockets[i].(ids := SetId(sockets[i].ids, id)));
      request.id := id;
      request.sockfd := sockets[i].sockfd;
      request.src := sockets[i].src;
      request.srcPort := sockets[i].srcPort;
      ok := Insert(request);
      if ok {
        SetSocket(i, sockets[i].(numOutgoing := sockets[i].numOutgoing + 1));
        numOutgoing := numOutgoing + 1;
        assert Value().sockets == AllocAt(l, i, id, w, request).sockets;
      } else {
        ClearSet(s.ids, id);
        SetSocket(i, sockets[i].(ids := ClearId(sockets[i].ids, id)));
        request.id := -1;
        request.sockfd := -1;
        request.src := request.src.(af := AF_UNSPEC);
        request.srcPort := 0;
        assert Value().sockets == l.sockets;
      }
    }

    // fr_packet_list_id_free
    method IdFree(request: RadiusPacket, yank: bool) returns (ok: bool)
      requires Formed(Value()) && SizedPacket(request.Fields())
      modifies this`numOutgoing, this`tree, sockets, request
      ensures ok <==> (yank ==> InTree(old(tree), old(request.Fields()))) && HasSocket(old(Value()), old(request.sockfd))
      ensures ok ==> Freed(old(Value()), KeyOf(old(request.Fields())), Value(), yank)
      ensures !ok ==> Value() == old(Value()).(tree := if yank && InTree(old(tree), old(request.Fields()))
                                                       then old(tree) - {KeyOf(old(request.Fields()))} else old(tree))
      ensures ok ==> request.id == -1 && request.src.af == AF_UNSPEC && request.srcPort == 0
    {
      ghost var l := Value();
      var key := KeyOf(request.Fields());
      if yank {
        var yanked := Yank(request);
        if !yanked { return false; }
      }
      assert tree == if yank then l.tree - {key} else l.tree;
      var i := SocketFind(request.sockfd);
      if i.None? { return false; }
      var s := sockets[i.value];
      SetSocket(i.value, s.(ids := ClearId(s.ids, Octet(request.id)), numOutgoing := s.numOutgoing - 1));
      numOutgoing := numOutgoing - 1;
      request.id := -1;
      request.src := request.src.(af := AF_UNSPEC);
      request.srcPort := 0;
      assert SocketAt(l, i.value, key.sockfd);
      return true;
    }

    // fr_packet_list_find_byreply. On a TCP socket the reply gets the addresses of the socket.
    method FindByReply(reply: RadiusPacket) returns (r: Option<RadiusPacket>)
      requires Formed(Value()) && SizedPacket(reply.Fields())
      modifies reply
      ensures r.Some? ==> HasSocket(Value(), old(reply.sockfd))
      ensures HasSocket(Value(), old(reply.sockfd)) ==> Replied(Value(), old(reply.Fields()), r)
      ensures forall i :: SocketAt(Value(), i, old(reply.sockfd)) && Open(sockets[i]) && SocketsOk(Value()) ==>
        reply.Fields() == if sockets[i].proto == IPPROTO_TCP then Swapped(sockets[i], old(reply.Fields())) else old(reply.Fields())
    {
      var i := SocketFind(reply.sockfd);
      if i.None? { return None; }
      ghost var was := reply.Fields();
      var s := sockets[i.value];
      var q := Packet(reply.sockfd, reply.id, s.src, s.srcPort, s.dst, s.dstPort);
      if s.proto == IPPROTO_TCP {
        reply.dst := s.src;
        reply.dstPort := s.srcPort;
        reply.src := s.dst;
        reply.srcPort := s.dstPort;
      } else {
        q := q.(src := if s.srcAny then s.src else reply.dst, dst := reply.src, dstPort := reply.srcPort);
      }
      assert SizedSocket(Value().sockets[i.value]);
      assert SocketAt(Value(), i.value, was.sockfd) && q == FromReply(Value().sockets[i.value], was);
      var key := KeyOf(q);
      r := if Known(q.src) && Known(q.dst) && key in tree then Some(tree[key]) else None;
    }
  }

  // The reply with the addresses of the socket, source and destination exchanged.
  function Swapped(s: Socket, reply: Packet): Packet {
    Packet(reply.sockfd, reply.id, s.dst, s.dstPort, s.src, s.srcPort)
  }

  // The tree holds a packet that compares equal.
  predicate InTree<P>(tree: map<Packet, P>, q: Packet)
    requires SizedPacket(q)
  {
    KnownPacket(q) && KeyOf(q) in tree
  }

  // The request is new in the tree, under its own key.
  predicate Inserted<P(==)>(before: map<Packet, P>, q: Packet, p: P, after: map<Packet, P>) {
    SizedPacket(q) && KeyOf(q) !in before && after == before[KeyOf(q) := p]
  }

  // A packet whose unspecified source has been replaced by any address.
  function WithSource(q: Packet): Packet {
    if q.src.af == AF_UNSPEC then q.(src := ZeroAddr(q.dst.af)) else q
  }

  // No Identifier can be allocated on this socket.
  ghost predicate Barren(ss: seq<Socket>, i: nat, r: Request, proto: int)
    requires i < |ss| && SizedRequest(r)
  {
    SizedSocket(ss[i]) && (Usable(ss[i], r, proto) ==> forall n: nat :: n < 256 ==> Taken(ss[i].ids, n))
  }

  ghost predicate Freed<P>(l: List<P>, key: Packet, l': List<P>, yank: bool)
    requires Formed(l)
  {
    exists i :: SocketAt(l, i, key.sockfd) && l' == FreeAt(l, i, key).(tree := if yank then l.tree - {key} else l.tree)
  }

  ghost predicate Replied<P>(l: List<P>, reply: Packet, r: Option<P>)
    requires Formed(l) && SizedPacket(reply)
  {
    exists i :: SocketAt(l, i, reply.sockfd) && SizedSocket(l.sockets[i]) && r == Lookup(l, FromReply(l.sockets[i], reply))
  }

  // Freeing an outstanding request always succeeds. With yank it is the step that PacketSpec describes;
  // the invariant is kept exactly when the request has been or is yanked from the tree.
  lemma FreedIsStep<P>(l: List<P>, key: Packet, l': List<P>, yank: bool)
    requires Inv(l) && key in l.tree
    ensures HasSocket(l, key.sockfd) && Formed(l) && OpOk<P>(Free(key))
    ensures Freed(l, key, l', yank) ==> (Inv(l') <==> yank) && (yank ==> Step(l, Free(key), l', true))
  {
    assert Placed(l, key);
    var i :| 0 <= i < |l.sockets| && OnSlot(l.sockets[i], key);
    if Freed(l, key, l', yank) && yank {
      StepKeeps(l, Free(key), l', true);
    }
  }

  // Freeing without yank after yanking is freeing with yank.
  lemma FreedAfterYank<P>(l: List<P>, key: Packet, l': List<P>)
    requires Formed(l)
    ensures Formed(l.(tree := l.tree - {key})) && (Freed(l.(tree := l.tree - {key}), key, l', false) <==> Freed(l, key, l', true))
  {
    var yanked := l.(tree := l.tree - {key});
    assert forall i :: SocketAt(l, i, key.sockfd) <==> SocketAt(yanked, i, key.sockfd);
    assert forall i :: SocketAt(l, i, key.sockfd) ==>
      FreeAt(l, i, key).(tree := l.tree - {key}) == FreeAt(yanked, i, key).(tree := yanked.tree);
  }

  // What find_byreply returns is an outstanding request exactly when the reply answers it, and nothing
  // exactly when it answers none.
  lemma RepliedExactly<P>(l: List<P>, i: nat, reply: Packet, r: Option<P>)
    requires Inv(l) && SocketAt(l, i, reply.sockfd) && SizedPacket(reply) && Formed(l) && Replied(l, reply, r)
    ensures forall key :: key in l.tree && Answers(l.sockets[i], reply, key) && Connected(l.sockets[i], key) ==>
      r == Some(l.tree[key])
    ensures r.Some? ==> exists key ::
      key in l.tree && Answers(l.sockets[i], reply, key) && Connected(l.sockets[i], key) && r == Some(l.tree[key])
  {
    hide Connected, Canonical;
    var j :| SocketAt(l, j, reply.sockfd) && SizedSocket(l.sockets[j]) && r == Lookup(l, FromReply(l.sockets[j], reply));
    forall other | other in l.tree && other.sockfd == reply.sockfd
      ensures i == j && (KeyOf(FromReply(l.sockets[i], reply)) == other ==> r == Some(l.tree[other]))
      ensures KeyOf(FromReply(l.sockets[i], reply)) == other
        <==> Answers(l.sockets[i], reply, other) && Connected(l.sockets[i], other)
    {
      assert Placed(l, other);
      OneSlot(l, i, j);
      ReplyFindsIff(l, i, other, reply);
    }
  }
}
