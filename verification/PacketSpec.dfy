// The packet list of packet.c as a value: sockets with their Identifier maps, and the tree of
// outstanding requests; what each operation may do, and what every run of them keeps.
module PacketSpec {
  import opened PacketOrder
  import opened PacketIds

  const MAX_SOCKETS: nat := 1024
  const IPPROTO_TCP: int := 6

  // fr_packet_socket_t
  datatype Socket = Socket(sockfd: int, numOutgoing: int, srcAny: bool, src: Addr, srcPort: nat,
                           dstAny: bool, dst: Addr, dstPort: nat, dontUse: bool, proto: int, ids: IdMap)

  // fr_packet_list_t; the tree maps the key of a request to the request. P stands for pointers.
  datatype List<+P> = List(sockets: seq<Socket>, numSockets: int, numOutgoing: int, tree: map<Packet, P>)

  // What the caller of id_alloc has filled in.
  datatype Request = Request(src: Addr, srcPort: nat, dst: Addr, dstPort: nat)

  function ZeroAddr(af: int): Addr {
    Addr(af, 0, seq(16, _ => 0), 0)
  }

  // A socket slot after memset.
  function Cleared(sockfd: int): Socket {
    Socket(sockfd, 0, false, ZeroAddr(AF_UNSPEC), 0, false, ZeroAddr(AF_UNSPEC), 0, false, 0, seq(32, _ => 0))
  }

  // fr_packet_list_create
  function Create<P>(): List<P> {
    List(seq(MAX_SOCKETS, _ => Cleared(-1)), 0, 0, map[])
  }

  // fr_inaddr_any
  function InAddrAny(a: Addr): int
    requires Sized(a)
  {
    if a.af == AF_INET then (if a.bytes[..4] == seq(4, _ => 0) then 1 else 0)
    else if a.af == AF_INET6 then (if a.bytes == seq(16, _ => 0) then 1 else 0)
    else -1
  }

  // (s_addr >> 24) & 0xff on a little-endian machine: the last octet of the address.
  function HighByte(a: Addr): Byte
    requires Sized(a)
  {
    a.bytes[3]
  }

  predicate Open(s: Socket) {
    s.sockfd != -1
  }

  predicate SizedRequest(r: Request) {
    Sized(r.src) && Sized(r.dst)
  }

  predicate SizedSocket(s: Socket) {
    Sized(s.src) && Sized(s.dst) && |s.ids| == 32
  }

  // ---------- choosing a socket ----------

  // id_alloc takes an unspecified source address as any address.
  function Prepared(r: Request): (q: Request)
    requires SizedRequest(r)
    ensures SizedRequest(q) && q.dst == r.dst
  {
    if r.src.af == AF_UNSPEC then r.(src := ZeroAddr(r.dst.af)) else r
  }

  // The checks of id_alloc before it looks at any socket.
  predicate ArgumentsOk(r: Request)
    requires SizedRequest(r)
  {
    && r.dst.af != AF_UNSPEC && r.dstPort != 0
    && InAddrAny(Prepared(r).src) >= 0 && InAddrAny(r.dst) == 0
  }

  // The tests a socket must pass, apart from having a free Identifier.
  predicate Usable(s: Socket, r: Request, proto: int)
    requires SizedSocket(s) && SizedRequest(r)
  {
    Matches(s, r, proto) && !LinkLocal(s, r)
  }

  // Any source will do, and the socket is taken for a link-local one and the destination is not.
  predicate LinkLocal(s: Socket, r: Request)
    requires SizedSocket(s) && SizedRequest(r)
  {
    InAddrAny(r.src) != 0 && s.src.af == AF_INET && HighByte(s.src) == 127 && HighByte(r.dst) != 127
  }

  // The other tests.
  predicate Matches(s: Socket, r: Request, proto: int)
    requires SizedSocket(s) && SizedRequest(r)
  {
    var srcAny := InAddrAny(r.src) != 0;
    && Open(s) && !s.dontUse && s.proto == proto
    && s.src.af == r.dst.af
    && (s.dstPort == 0 || s.dstPort == r.dstPort)
    && (r.srcPort == 0 || s.srcPort == r.srcPort)
    && (s.srcAny ==> srcAny)
    && (!s.srcAny && !srcAny ==> AddrCmp(r.src, s.src) == 0)
    && (!s.dstAny ==> AddrCmp(r.dst, s.dst) == 0)
  }

  // The request with the Identifier, socket and source that id_alloc assigns.
  function Assigned(s: Socket, n: nat, r: Request): Packet {
    Packet(s.sockfd, n, s.src, s.srcPort, r.dst, r.dstPort)
  }

  // ---------- what the operations do to the list ----------

  function WithSocket<P>(l: List<P>, i: nat, s: Socket): List<P>
    requires i < |l.sockets|
  {
    l.(sockets := l.sockets[i := s])
  }

  function AllocAt<P>(l: List<P>, i: nat, n: nat, r: Request, p: P): List<P>
    requires Formed(l) && i < |l.sockets| && n < 256 && SizedRequest(r)
  {
    var s := l.sockets[i];
    WithSocket(l, i, s.(ids := SetId(s.ids, n), numOutgoing := s.numOutgoing + 1))
    .(numOutgoing := l.numOutgoing + 1, tree := l.tree[KeyOf(Assigned(s, n, r)) := p])
  }

  // The place of an Identifier in the map: ((id >> 3) & 0x1f) * 8 + (id & 0x07)
  function Octet(id: int): (n: nat)
    ensures n < 256
  {
    id % 256
  }

  lemma OctetIs(id: int)
    requires 0 <= id < 256
    ensures Octet(id) == id
  {
  }

  function FreeAt<P>(l: List<P>, i: nat, key: Packet): List<P>
    requires Formed(l) && i < |l.sockets|
  {
    var s := l.sockets[i];
    WithSocket(l, i, s.(ids := ClearId(s.ids, Octet(key.id)), numOutgoing := s.numOutgoing - 1))
    .(numOutgoing := l.numOutgoing - 1, tree := l.tree - {key})
  }

  // The socket that socket_add fills in. It is stopped half way when getsockname fails or gives an
  // address that cannot be used, both of which stand for an unknown family of src, and by an unknown
  // family of dst.
  function Added(sockfd: int, proto: int, src: Addr, srcPort: nat, dst: Addr, dstPort: nat): Socket
    requires Sized(dst)
  {
    if !Known(src) then Cleared(0).(proto := proto)
    else
      var s := Cleared(0).(proto := proto, src := src, srcPort := srcPort, dst := dst, dstPort := dstPort,
                           srcAny := InAddrAny(src) != 0);
      if InAddrAny(dst) < 0 then s else s.(sockfd := sockfd, dstAny := InAddrAny(dst) != 0)
  }

  datatype Op<+P> =
    | Add(sockfd: int, proto: int, src: Addr, srcPort: nat, dst: Addr, dstPort: nat)
    | Freeze(sockfd: int)
    | Thaw(sockfd: int)
    | Delete(sockfd: int)
    | Alloc(r: Request, proto: int, p: P)
    | Free(key: Packet)

  predicate HasSocket<P>(l: List<P>, fd: int) {
    exists i :: 0 <= i < |l.sockets| && l.sockets[i].sockfd == fd
  }

  // What one call may do and return. Which of several usable slots and Identifiers is taken depends
  // on random numbers.
  ghost predicate Step<P>(l: List<P>, op: Op<P>, l': List<P>, ok: bool)
    requires Formed(l) && OpOk(op)
  {
    match op
    case Add(fd, proto, src, srcPort, dst, dstPort) =>
      if dst.af == AF_UNSPEC || l.numSockets >= MAX_SOCKETS || !HasSocket(l, -1) then !ok && l' == l
      else ok == (Known(src) && Known(dst)) && exists i :: AddsAt(l, i, Added(fd, proto, src, srcPort, dst, dstPort), ok, l')
    case Freeze(fd) => SetUse(l, fd, true, l', ok)
    case Thaw(fd) => SetUse(l, fd, false, l', ok)
    case Delete(fd) =>
      if !ok then l' == l && (HasSocket(l, fd) ==> exists i :: SocketAt(l, i, fd) && l.sockets[i].numOutgoing != 0)
      else exists i :: DeletesAt(l, i, fd, l')
    case Alloc(r, proto, p) =>
      if !ok then l' == l && (ArgumentsOk(r) ==> NoneFree(l, Prepared(r), proto))
      else ArgumentsOk(r) && exists i, n :: CanAlloc(l, i, n, Prepared(r), proto) && l' == AllocAt(l, i, n, r, p)
    case Free(key) =>
      if !ok then l' == l && (key !in l.tree || !HasSocket(l, key.sockfd))
      else key in l.tree && exists i :: SocketAt(l, i, key.sockfd) && l' == FreeAt(l, i, key)
  }

  ghost predicate AddsAt<P>(l: List<P>, i: int, s: Socket, ok: bool, l': List<P>) {
    && SocketAt(l, i, -1)
    && l' == WithSocket(l, i, s).(numSockets := if ok then l.numSockets + 1 else l.numSockets)
  }

  ghost predicate DeletesAt<P>(l: List<P>, i: int, fd: int, l': List<P>) {
    && SocketAt(l, i, fd) && l.sockets[i].numOutgoing == 0
    && l' == WithSocket(l, i, l.sockets[i].(sockfd := -1)).(numSockets := l.numSockets - 1)
  }

  predicate SocketAt<P>(l: List<P>, i: int, fd: int) {
    0 <= i < |l.sockets| && l.sockets[i].sockfd == fd
  }

  ghost predicate SetUse<P>(l: List<P>, fd: int, frozen: bool, l': List<P>, ok: bool) {
    if !ok then l' == l && !HasSocket(l, fd)
    else exists i :: SocketAt(l, i, fd) && l' == WithSocket(l, i, l.sockets[i].(dontUse := frozen))
  }

  predicate CanAlloc<P>(l: List<P>, i: int, n: int, r: Request, proto: int)
    requires Formed(l) && SizedRequest(r)
  {
    0 <= i < |l.sockets| && 0 <= n < 256 && Usable(l.sockets[i], r, proto) && !Taken(l.sockets[i].ids, n)
  }

  // No usable socket has a free Identifier.
  ghost predicate NoneFree<P>(l: List<P>, r: Request, proto: int)
    requires Formed(l) && SizedRequest(r)
  {
    forall i, n :: !CanAlloc(l, i, n, r, proto)
  }

  predicate OpOk<P>(op: Op<P>) {
    && (op.Add? ==> Sized(op.dst))
    && (op.Alloc? ==> SizedRequest(op.r))
  }

  ghost predicate Formed<P>(l: List<P>) {
    |l.sockets| == MAX_SOCKETS && forall i :: 0 <= i < |l.sockets| ==> SizedSocket(l.sockets[i])
  }

  // ---------- the invariant ----------

  function OpenCount(ss: seq<Socket>): nat {
    if ss == [] then 0 else OpenCount(ss[..|ss| - 1]) + if Open(ss[|ss| - 1]) then 1 else 0
  }

  function Outgoing(ss: seq<Socket>): int {
    if ss == [] then 0 else Outgoing(ss[..|ss| - 1]) + ss[|ss| - 1].numOutgoing
  }

  // A socket's counter is the number of bits set in its map, and a free slot has none.
  ghost predicate SocketOk(s: Socket) {
    && SizedSocket(s)
    && s.numOutgoing == |Used(s.ids)|
    && (!Open(s) ==> s.numOutgoing == 0)
    && (Open(s) ==> Known(s.src) && Known(s.dst)
                    && (s.srcAny <==> InAddrAny(s.src) == 1) && (s.dstAny <==> InAddrAny(s.dst) == 1))
  }

  // An outstanding request belongs to slot i.
  predicate OnSlot(s: Socket, key: Packet)
    requires SizedSocket(s)
  {
    && Open(s) && s.sockfd == key.sockfd && 0 <= key.id < 256 && Taken(s.ids, key.id)
    && key.src == Canonical(s.src) && key.srcPort == s.srcPort
    && (s.dstAny || key.dst == Canonical(s.dst)) && (s.dstPort == 0 || key.dstPort == s.dstPort)
  }

  ghost predicate Placed<P>(l: List<P>, key: Packet)
    requires Formed(l)
  {
    KnownPacket(key) && KeyOf(key) == key && exists i :: 0 <= i < |l.sockets| && OnSlot(l.sockets[i], key)
  }

  // An Identifier in use belongs to an outstanding request.
  ghost predicate Held<P>(l: List<P>, fd: int, n: int) {
    exists key :: key in l.tree && key.sockfd == fd && key.id == n
  }

  ghost predicate SocketsOk<P>(l: List<P>) {
    && |l.sockets| == MAX_SOCKETS
    && (forall i :: 0 <= i < |l.sockets| ==> SocketOk(l.sockets[i]))
    && (forall i, j :: 0 <= i < j < |l.sockets| && Open(l.sockets[i]) ==> l.sockets[i].sockfd != l.sockets[j].sockfd)
  }

  ghost predicate AllPlaced<P>(l: List<P>)
    requires Formed(l)
  {
    forall key {:trigger Placed(l, key)} :: key in l.tree ==> Placed(l, key)
  }

  ghost predicate AllDistinct<P>(l: List<P>) {
    forall a, b :: a in l.tree && b in l.tree && a.sockfd == b.sockfd && a.id == b.id ==> a == b
  }

  ghost predicate AllHeld<P>(l: List<P>)
    requires Formed(l)
  {
    forall i, n {:trigger Held(l, l.sockets[i].sockfd, n)} ::
      0 <= i < |l.sockets| && 0 <= n < 256 && Taken(l.sockets[i].ids, n) ==> Held(l, l.sockets[i].sockfd, n)
  }

  ghost predicate Inv<P>(l: List<P>) {
    && SocketsOk(l) && AllPlaced(l) && AllDistinct(l) && AllHeld(l)
    && l.numSockets == OpenCount(l.sockets)
    && l.numOutgoing == Outgoing(l.sockets) == |l.tree|
  }

  // ---------- counting ----------

  lemma {:induction false} CountUpdate(ss: seq<Socket>, i: nat, s: Socket)
    requires i < |ss|
    ensures OpenCount(ss[i := s]) == OpenCount(ss) - (if Open(ss[i]) then 1 else 0) + (if Open(s) then 1 else 0)
    ensures Outgoing(ss[i := s]) == Outgoing(ss) - ss[i].numOutgoing + s.numOutgoing
    decreases |ss|
  {
    var n := |ss| - 1;
    if i == n {
      assert ss[i := s][..n] == ss[..n];
    } else {
      CountUpdate(ss[..n], i, s);
      assert ss[i := s][..n] == ss[..n][i := s];
    }
  }

  // Fewer open sockets than slots leave a free slot.
  lemma {:induction false} FreeSlot(ss: seq<Socket>)
    ensures OpenCount(ss) <= |ss|
    ensures OpenCount(ss) < |ss| <==> exists i :: 0 <= i < |ss| && ss[i].sockfd == -1
  {
    if ss != [] {
      var n := |ss| - 1;
      FreeSlot(ss[..n]);
      if OpenCount(ss) < |ss| && Open(ss[n]) {
        var i :| 0 <= i < n && ss[..n][i].sockfd == -1;
        assert ss[i].sockfd == -1;
      }
      if i :| 0 <= i < |ss| && ss[i].sockfd == -1 {
        assert i < n ==> ss[..n][i].sockfd == -1;
      }
    }
  }

  // ---------- every operation keeps the invariant ----------

  // The socket with this descriptor is in one slot only.
  lemma OneSlot<P>(l: List<P>, i: nat, j: nat)
    requires SocketsOk(l) && i < |l.sockets| && j < |l.sockets|
    requires l.sockets[i].sockfd == l.sockets[j].sockfd != -1
    ensures i == j
  {
  }

  // A request that OnSlot puts in some slot is in the slot that has its descriptor.
  lemma PlacedAt<P>(l: List<P>, i: nat, key: Packet)
    requires SocketsOk(l) && Placed(l, key) && i < |l.sockets| && l.sockets[i].sockfd == key.sockfd
    ensures OnSlot(l.sockets[i], key)
  {
    var j :| 0 <= j < |l.sockets| && OnSlot(l.sockets[j], key);
    OneSlot(l, i, j);
  }

  // A free bit on an open socket: no outstanding request has that descriptor and Identifier, so
  // the tree has no equal key.
  lemma NoCollision<P>(l: List<P>, i: nat, n: nat, r: Request)
    requires Inv(l) && i < |l.sockets| && Open(l.sockets[i]) && n < 256 && !Taken(l.sockets[i].ids, n) && SizedRequest(r)
    ensures forall key :: key in l.tree ==> key.sockfd != l.sockets[i].sockfd || key.id != n
    ensures KeyOf(Assigned(l.sockets[i], n, r)) !in l.tree
  {
    forall key | key in l.tree
      ensures key.sockfd != l.sockets[i].sockfd || key.id != n
    {
      assert Placed(l, key);
      if key.sockfd == l.sockets[i].sockfd {
        PlacedAt(l, i, key);
      }
    }
  }

  lemma CanonicalIdempotent(a: Addr)
    requires Sized(a)
    ensures Sized(Canonical(a)) && Canonical(Canonical(a)) == Canonical(a)
    ensures Known(a) ==> Known(Canonical(a))
  {
    if a.af == AF_INET {
      assert Canonical(a).bytes[..4] == a.bytes[..4];
    }
  }

  lemma AssignedPlaced(s: Socket, n: nat, r: Request, proto: int)
    requires SocketOk(s) && SizedRequest(r) && ArgumentsOk(r) && Usable(s, Prepared(r), proto) && n < 256
    ensures var key := KeyOf(Assigned(s, n, r));
      && KnownPacket(key) && KeyOf(key) == key
      && OnSlot(s.(ids := SetId(s.ids, n), numOutgoing := s.numOutgoing + 1), key)
  {
    SetIdUsed(s.ids, n);
    assert n in Used(SetId(s.ids, n));
    CanonicalIdempotent(s.src);
    CanonicalIdempotent(r.dst);
    if !s.dstAny {
      AddrCmpIff(r.dst, s.dst);
    }
  }

  // Changing slot i keeps the sockets distinct when its descriptor stays or is new.
  lemma SocketsKeep<P>(l: List<P>, l': List<P>, i: nat)
    requires SocketsOk(l) && i < |l.sockets| == |l'.sockets|
    requires l'.sockets == l.sockets[i := l'.sockets[i]] && SocketOk(l'.sockets[i])
    requires l'.sockets[i].sockfd == l.sockets[i].sockfd || !Open(l'.sockets[i]) || !HasSocket(l, l'.sockets[i].sockfd)
    ensures SocketsOk(l')
    ensures OpenCount(l'.sockets) == OpenCount(l.sockets) - (if Open(l.sockets[i]) then 1 else 0)
                                     + (if Open(l'.sockets[i]) then 1 else 0)
    ensures Outgoing(l'.sockets) == Outgoing(l.sockets) - l.sockets[i].numOutgoing + l'.sockets[i].numOutgoing
  {
    CountUpdate(l.sockets, i, l'.sockets[i]);
  }

  // A change of slot i that takes no bit from a request leaves it placed.
  lemma StillPlaced<P>(l: List<P>, l': List<P>, i: nat, key: Packet)
    requires Formed(l) && Formed(l') && Placed(l, key) && i < |l.sockets|
    requires l'.sockets == l.sockets[i := l'.sockets[i]]
    requires OnSlot(l.sockets[i], key) ==> OnSlot(l'.sockets[i], key)
    ensures Placed(l', key)
  {
    var j :| 0 <= j < |l.sockets| && OnSlot(l.sockets[j], key);
    assert OnSlot(l'.sockets[j], key);
  }

  lemma AllocKeeps<P>(l: List<P>, i: nat, n: nat, r: Request, proto: int, p: P)
    requires Inv(l) && SizedRequest(r) && ArgumentsOk(r) && CanAlloc(l, i, n, Prepared(r), proto)
    ensures Inv(AllocAt(l, i, n, r, p))
  {
    var s, l' := l.sockets[i], AllocAt(l, i, n, r, p);
    var key := KeyOf(Assigned(s, n, r));
    assert SocketOk(s);
    SetIdUsed(s.ids, n);
    SocketsKeep(l, l', i);
    NoCollision(l, i, n, r);
    AllocTree(l.tree, key, p);
    AllocPlaced(l, i, n, r, proto, p);
    AllocHeld(l, i, n, r, p);
  }

  lemma AllocTree<P>(tree: map<Packet, P>, key: Packet, p: P)
    requires key !in tree
    ensures |tree[key := p]| == |tree| + 1
  {
    assert tree[key := p].Keys == tree.Keys + {key};
  }

  lemma FreeTree<P>(tree: map<Packet, P>, key: Packet)
    requires key in tree
    ensures |tree - {key}| == |tree| - 1
  {
    assert (tree - {key}).Keys == tree.Keys - {key};
  }

  lemma AllocPlaced<P>(l: List<P>, i: nat, n: nat, r: Request, proto: int, p: P)
    requires Inv(l) && SizedRequest(r) && ArgumentsOk(r) && CanAlloc(l, i, n, Prepared(r), proto)
    requires SocketsOk(AllocAt(l, i, n, r, p))
    ensures AllPlaced(AllocAt(l, i, n, r, p))
  {
    var s, l' := l.sockets[i], AllocAt(l, i, n, r, p);
    SetIdUsed(s.ids, n);
    AssignedPlaced(s, n, r, proto);
    forall key | key in l'.tree
      ensures Placed(l', key)
    {
      if key == KeyOf(Assigned(s, n, r)) {
        assert OnSlot(l'.sockets[i], key);
      } else {
        if OnSlot(s, key) {
          assert key.id in Used(s.ids);
          assert key.id in Used(l'.sockets[i].ids);
        }
        assert Placed(l, key);
        StillPlaced(l, l', i, key);
      }
    }
  }

  lemma AllocHeld<P>(l: List<P>, i: nat, n: nat, r: Request, p: P)
    requires Inv(l) && SizedRequest(r) && i < |l.sockets| && n < 256 && SocketsOk(AllocAt(l, i, n, r, p))
    ensures AllHeld(AllocAt(l, i, n, r, p))
  {
    var l' := AllocAt(l, i, n, r, p);
    forall j, m | 0 <= j < |l'.sockets| && 0 <= m < 256 && Taken(l'.sockets[j].ids, m)
      ensures Held(l', l'.sockets[j].sockfd, m)
    {
      AllocHolds(l, i, n, r, p, j, m);
    }
  }

  lemma AllocHolds<P>(l: List<P>, i: nat, n: nat, r: Request, p: P, j: nat, m: nat)
    requires Inv(l) && SizedRequest(r) && i < |l.sockets| && n < 256
    requires var l' := AllocAt(l, i, n, r, p); j < |l'.sockets| && m < 256 && Taken(l'.sockets[j].ids, m)
    ensures var l' := AllocAt(l, i, n, r, p); Held(l', l'.sockets[j].sockfd, m)
  {
    hide Bit, SetId, Canonical;
    var s, l' := l.sockets[i], AllocAt(l, i, n, r, p);
    if j == i && m == n {
      assert KeyOf(Assigned(s, n, r)) in l'.tree;
    } else {
      SetIdUsed(s.ids, n);
      assert m in Used(l'.sockets[j].ids);
      var key := Holder(l, j, m);
      assert key in l'.tree;
    }
  }

  lemma Holder<P>(l: List<P>, i: nat, n: nat) returns (key: Packet)
    requires Inv(l) && i < |l.sockets| && n < 256 && Taken(l.sockets[i].ids, n)
    ensures key in l.tree && key.sockfd == l.sockets[i].sockfd && key.id == n
  {
    assert Held(l, l.sockets[i].sockfd, n);
    key :| key in l.tree && key.sockfd == l.sockets[i].sockfd && key.id == n;
  }

  lemma KeyPlaced<P>(l: List<P>, i: nat, key: Packet)
    requires Inv(l) && SocketAt(l, i, key.sockfd) && key in l.tree
    ensures Formed(l) && Placed(l, key) && OnSlot(l.sockets[i], key)
  {
    assert Placed(l, key);
    PlacedAt(l, i, key);
  }

  lemma FreeKeeps<P>(l: List<P>, i: nat, key: Packet)
    requires Inv(l) && SocketAt(l, i, key.sockfd) && key in l.tree
    ensures Inv(FreeAt(l, i, key))
  {
    hide Octet, Bit, Taken, ClearId, Canonical, KeyOf, AllPlaced, AllHeld, Known, InAddrAny, OnSlot;
    KeyPlaced(l, i, key);
    var s, l' := l.sockets[i], FreeAt(l, i, key);
    assert SocketOk(s);
    OctetIs(key.id);
    ClearIdUsed(s.ids, key.id);
    SocketsKeep(l, l', i);
    FreeTree(l.tree, key);
    FreePlaced(l, i, key);
    FreeHeld(l, i, key);
  }

  lemma FreePlaced<P>(l: List<P>, i: nat, key: Packet)
    requires Inv(l) && SocketAt(l, i, key.sockfd) && key in l.tree && 0 <= key.id < 256
    requires SocketsOk(FreeAt(l, i, key))
    ensures AllPlaced(FreeAt(l, i, key))
  {
    hide Octet, Bit, ClearId, Canonical, KeyOf;
    OctetIs(key.id);
    var s, l' := l.sockets[i], FreeAt(l, i, key);
    ClearIdUsed(s.ids, key.id);
    forall other | other in l'.tree
      ensures Placed(l', other)
    {
      assert Placed(l, other);
      if OnSlot(s, other) {
        assert other.id in Used(s.ids) && other.id != key.id;
        assert other.id in Used(l'.sockets[i].ids);
      }
      StillPlaced(l, l', i, other);
    }
  }

  lemma FreeHeld<P>(l: List<P>, i: nat, key: Packet)
    requires Inv(l) && SocketAt(l, i, key.sockfd) && key in l.tree && 0 <= key.id < 256
    requires SocketsOk(FreeAt(l, i, key))
    ensures AllHeld(FreeAt(l, i, key))
  {
    var l' := FreeAt(l, i, key);
    forall j, m | 0 <= j < |l'.sockets| && 0 <= m < 256 && Taken(l'.sockets[j].ids, m)
      ensures Held(l', l'.sockets[j].sockfd, m)
    {
      FreeHolds(l, i, key, j, m);
    }
  }

  lemma FreeHolds<P>(l: List<P>, i: nat, key: Packet, j: nat, m: nat)
    requires Inv(l) && SocketAt(l, i, key.sockfd) && key in l.tree && 0 <= key.id < 256
    requires var l' := FreeAt(l, i, key); j < |l'.sockets| && m < 256 && Taken(l'.sockets[j].ids, m)
    ensures var l' := FreeAt(l, i, key); Held(l', l'.sockets[j].sockfd, m)
  {
    hide Octet, Bit, ClearId, Canonical, KeyOf, Known, InAddrAny, Outgoing, OpenCount;
    OctetIs(key.id);
    var l' := FreeAt(l, i, key);
    assert Placed(l, key);
    ClearIdUsed(l.sockets[i].ids, key.id);
    assert m in Used(l'.sockets[j].ids) && Taken(l.sockets[j].ids, m);
    var other := Holder(l, j, m);
    assert j != i ==> l.sockets[j].sockfd != key.sockfd;
    assert other != key && other in l'.tree;
  }

  // Changing a slot without touching its map, and without taking the descriptor of a request away.
  lemma SlotKeeps<P>(l: List<P>, l': List<P>, i: nat)
    requires Inv(l) && i < |l.sockets| == |l'.sockets| && SocketOk(l'.sockets[i])
    requires l'.sockets == l.sockets[i := l'.sockets[i]] && l'.tree == l.tree && l'.numOutgoing == l.numOutgoing
    requires l'.sockets[i].sockfd == l.sockets[i].sockfd || !Open(l'.sockets[i]) || !HasSocket(l, l'.sockets[i].sockfd)
    requires l'.sockets[i].ids == l.sockets[i].ids || (Used(l'.sockets[i].ids) == {} && Used(l.sockets[i].ids) == {})
    requires l'.sockets[i].numOutgoing == l.sockets[i].numOutgoing
    requires Used(l.sockets[i].ids) == {} || l'.sockets[i] == l.sockets[i].(dontUse := l'.sockets[i].dontUse)
    requires l'.numSockets == l.numSockets - (if Open(l.sockets[i]) then 1 else 0) + (if Open(l'.sockets[i]) then 1 else 0)
    ensures Inv(l')
  {
    hide Bit, Canonical, KeyOf, Known, InAddrAny;
    SocketsKeep(l, l', i);
    forall key | key in l'.tree
      ensures Placed(l', key)
    {
      assert Placed(l, key);
      if OnSlot(l.sockets[i], key) {
        assert key.id in Used(l.sockets[i].ids);
      }
      StillPlaced(l, l', i, key);
    }
    forall j, m | 0 <= j < |l'.sockets| && 0 <= m < 256 && Taken(l'.sockets[j].ids, m)
      ensures Held(l', l'.sockets[j].sockfd, m)
    {
      assert m in Used(l'.sockets[j].ids);
      var key := Holder(l, j, m);
    }
  }

  lemma EmptyUsed(s: Socket)
    requires SocketOk(s) && s.numOutgoing == 0
    ensures Used(s.ids) == {}
  {
  }

  lemma ClearedIds()
    ensures Used(Cleared(0).ids) == {}
  {
    forall n: nat | n < 256
      ensures !Taken(Cleared(0).ids, n)
    {
    }
  }

  lemma AddKeeps<P>(l: List<P>, i: nat, s: Socket, l': List<P>)
    requires Inv(l) && AddsAt(l, i, s, true, l')
    requires SocketOk(s) && Open(s) && !HasSocket(l, s.sockfd) && s.ids == Cleared(0).ids && s.numOutgoing == 0
    ensures Inv(l')
  {
    assert SocketOk(l.sockets[i]);
    EmptyUsed(l.sockets[i]);
    ClearedIds();
    SlotKeeps(l, l', i);
  }

  lemma AddedOk(fd: int, proto: int, src: Addr, srcPort: nat, dst: Addr, dstPort: nat)
    requires Known(src) && Known(dst) && fd != -1
    ensures SocketOk(Added(fd, proto, src, srcPort, dst, dstPort))
  {
    ClearedIds();
  }

  lemma DeleteKeeps<P>(l: List<P>, i: nat, fd: int, l': List<P>)
    requires Inv(l) && DeletesAt(l, i, fd, l') && fd != -1
    ensures Inv(l')
  {
    assert SocketOk(l.sockets[i]);
    EmptyUsed(l.sockets[i]);
    SlotKeeps(l, l', i);
  }

  lemma UseKeeps<P>(l: List<P>, i: nat, frozen: bool)
    requires Inv(l) && i < |l.sockets|
    ensures Inv(WithSocket(l, i, l.sockets[i].(dontUse := frozen)))
  {
    assert SocketOk(l.sockets[i]);
    SlotKeeps(l, WithSocket(l, i, l.sockets[i].(dontUse := frozen)), i);
  }

  // What the callers of the list have to respect: descriptors are not -1 and are added once, source
  // and destination families are known, and only outstanding requests are freed.
  predicate Disciplined<P>(l: List<P>, op: Op<P>) {
    match op
    case Add(fd, proto, src, srcPort, dst, dstPort) =>
      fd != -1 && !HasSocket(l, fd) && Known(src) && (Known(dst) || (Sized(dst) && dst.af == AF_UNSPEC))
    case Freeze(fd) => fd != -1
    case Thaw(fd) => fd != -1
    case Delete(fd) => fd != -1
    case Alloc(r, proto, p) => SizedRequest(r)
    case Free(key) => key in l.tree
  }

  // Every call keeps the invariant, whatever the random numbers are.
  lemma StepKeeps<P>(l: List<P>, op: Op<P>, l': List<P>, ok: bool)
    requires Inv(l) && Disciplined(l, op) && Formed(l) && Step(l, op, l', ok)
    ensures Inv(l')
  {
    match op
    case Add(fd, proto, src, srcPort, dst, dstPort) =>
      if ok {
        AddedOk(fd, proto, src, srcPort, dst, dstPort);
        var i :| AddsAt(l, i, Added(fd, proto, src, srcPort, dst, dstPort), ok, l');
        AddKeeps(l, i, Added(fd, proto, src, srcPort, dst, dstPort), l');
      }
    case Freeze(fd) =>
      if ok {
        var i :| SocketAt(l, i, fd) && l' == WithSocket(l, i, l.sockets[i].(dontUse := true));
        UseKeeps(l, i, true);
      }
    case Thaw(fd) =>
      if ok {
        var i :| SocketAt(l, i, fd) && l' == WithSocket(l, i, l.sockets[i].(dontUse := false));
        UseKeeps(l, i, false);
      }
    case Delete(fd) =>
      if ok {
        var i :| DeletesAt(l, i, fd, l');
        DeleteKeeps(l, i, fd, l');
      }
    case Alloc(r, proto, p) =>
      if ok {
        var i, n :| CanAlloc(l, i, n, Prepared(r), proto) && l' == AllocAt(l, i, n, r, p);
        AllocKeeps(l, i, n, r, proto, p);
      }
    case Free(key) =>
      if ok {
        var i :| SocketAt(l, i, key.sockfd) && l' == FreeAt(l, i, key);
        FreeKeeps(l, i, key);
      }
  }

  lemma {:induction false} NoneOpen(ss: seq<Socket>)
    requires forall i :: 0 <= i < |ss| ==> ss[i] == Cleared(-1)
    ensures OpenCount(ss) == 0 && Outgoing(ss) == 0
  {
    if ss != [] {
      NoneOpen(ss[..|ss| - 1]);
    }
  }

  lemma CreateInv<P>()
    ensures Inv(Create<P>())
  {
    var l := Create<P>();
    NoneOpen(l.sockets);
    ClearedIds();
    forall i, n | 0 <= i < |l.sockets| && 0 <= n < 256
      ensures !Taken(l.sockets[i].ids, n)
    {
      assert n in Used(Cleared(0).ids) <==> Taken(Cleared(0).ids, n);
    }
  }

  // A run: what is called, and what each call returned and left behind.
  datatype Call<+P> = Call(op: Op<P>, ok: bool, after: List<P>)

  ghost predicate Run<P>(l: List<P>, calls: seq<Call<P>>)
    decreases |calls|
  {
    calls == [] || (
      var c := calls[0];
      Formed(l) && Disciplined(l, c.op) && OpOk(c.op) && Step(l, c.op, c.after, c.ok) && Run(c.after, calls[1..]))
  }

  function Last<P>(l: List<P>, calls: seq<Call<P>>): List<P> {
    if calls == [] then l else calls[|calls| - 1].after
  }

  lemma {:induction false} RunKeeps<P>(l: List<P>, calls: seq<Call<P>>)
    requires Inv(l) && Run(l, calls)
    ensures Inv(Last(l, calls))
    decreases |calls|
  {
    if calls == [] {
    } else {
      var c := calls[0];
      StepKeeps(l, c.op, c.after, c.ok);
      RunKeeps(c.after, calls[1..]);
      assert Last(c.after, calls[1..]) == Last(l, calls);
    }
  }
}
