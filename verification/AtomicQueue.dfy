// The bounded queue of atomic_queue.c: any number of threads push and pop, and every load, store and
// compare-and-swap is one atomic step of one thread. Tickets are unbounded integers.
module AtomicQueue {
  import opened Options
  import Bits

  // ---------- the state ----------

  datatype Slot<+T> = Slot(data: Option<T>, seqno: int)

  // What a thread does next, with its local variables.
  datatype Thread<+T> =
    | Idle
    | LoadHead(d: T)
    | ReadForPush(d: T, head: int)
    | CasHead(d: T, head: int)
    | StoreData(d: T, head: int)
    | Publish(d: T, head: int)
    | LoadTail
    | ReadForPop(tail: int)
    | CasTail(tail: int)
    | CopyData(tail: int)
    | Release(tail: int, v: Option<T>)

  datatype Call<+T> = Push(data: Option<T>) | Pop(hasResult: bool)

  // The calls that have returned. A ticket is the value of head or tail that a thread incremented.
  datatype Event<+T> =
    | Pushed(ticket: int, d: T)
    | Popped(ticket: int, v: Option<T>)
    | Full(ticket: int)
    | Empty(ticket: int)
    | NullArgument

  // A claimed push ticket: the value, and the thread that won the ticket.
  datatype Claim<+T> = Claim(d: T, thread: nat)

  // The queue, its threads, and the history: who won which push and pop ticket, the tickets that
  // have been published and released, and the calls that have returned.
  datatype State<+T> = State(
    size: nat, head: int, tail: int, slots: seq<Slot<T>>, threads: seq<Thread<T>>,
    claims: seq<Claim<T>>, takers: seq<nat>, published: set<int>, released: set<int>, log: seq<Event<T>>)

  // ticket % size, by repeated subtraction.
  function Index(ticket: int, size: nat): (i: nat)
    requires ticket >= 0 && size > 0
    ensures i < size && i <= ticket
    decreases ticket
  {
    if ticket < size then ticket else Index(ticket - size, size)
  }

  lemma {:induction false} IndexIsRemainder(ticket: int, size: nat)
    requires ticket >= 0 && size > 0
    ensures Index(ticket, size) == ticket % size
    decreases ticket
  {
    if ticket >= size {
      IndexIsRemainder(ticket - size, size);
      var q, r := (ticket - size) / size, (ticket - size) % size;
      assert ticket == (q + 1) * size + r;
      Bits.DivModUnique(ticket, size, q + 1, r);
    } else {
      Bits.DivModUnique(ticket, size, 0, ticket);
    }
  }

  // Tickets that share a slot are a whole number of laps apart.
  lemma {:induction false} IndexApart(a: int, b: int, size: nat)
    requires 0 <= a <= b && size > 0 && Index(a, size) == Index(b, size)
    ensures a == b || a + size <= b
    decreases b
  {
    if b >= size {
      if a >= size {
        IndexApart(a - size, b - size, size);
      }
    }
  }

  // fr_atomic_queue_create
  function Create<T>(size: int, threads: nat): Option<State<T>> {
    if size <= 0 then None
    else Some(State(size, 0, 0, seq(size, i => Slot(None, i)), seq(threads, _ => Idle), [], [], {}, {}, []))
  }

  // ---------- the steps ----------

  function Entry<T>(s: State<T>, ticket: int): Slot<T>
    requires ticket >= 0 && 0 < s.size == |s.slots|
  {
    s.slots[Index(ticket, s.size)]
  }

  function SetEntry<T>(s: State<T>, ticket: int, e: Slot<T>): State<T>
    requires ticket >= 0 && 0 < s.size == |s.slots|
  {
    s.(slots := s.slots[Index(ticket, s.size) := e])
  }

  function Goto<T>(s: State<T>, p: nat, t: Thread<T>): State<T>
    requires p < |s.threads|
  {
    s.(threads := s.threads[p := t])
  }

  function Return<T>(s: State<T>, p: nat, e: Event<T>): State<T>
    requires p < |s.threads|
  {
    s.(threads := s.threads[p := Idle], log := s.log + [e])
  }

  // An idle thread calls fr_atomic_queue_push or fr_atomic_queue_pop.
  function Start<T>(s: State<T>, p: nat, c: Call<T>): State<T>
    requires p < |s.threads|
  {
    match c
    case Push(data) => if data.None? then Return(s, p, NullArgument) else Goto(s, p, LoadHead(data.value))
    case Pop(hasResult) => if !hasResult then Return(s, p, NullArgument) else Goto(s, p, LoadTail)
  }

  // The numbers in the local variables are tickets.
  predicate Local<T>(t: Thread<T>) {
    && (t.ReadForPush? || t.CasHead? || t.StoreData? || t.Publish? ==> t.head >= 0)
    && (t.ReadForPop? || t.CasTail? || t.CopyData? || t.Release? ==> t.tail >= 0)
  }

  predicate Shape<T>(s: State<T>) {
    && 0 < s.size == |s.slots|
    && s.head >= 0 && s.tail >= 0
    && forall p :: 0 <= p < |s.threads| ==> Local(s.threads[p])
  }

  // One step of thread p. A failed compare-and-swap leaves the value it saw in the local variable.
  function Step<T>(s: State<T>, p: nat): State<T>
    requires Shape(s) && p < |s.threads|
  {
    match s.threads[p]
    case Idle => s
    case LoadHead(d) => Goto(s, p, ReadForPush(d, s.head))
    case ReadForPush(d, head) =>
      var diff := Entry(s, head).seqno - head;
      if diff < 0 then Return(s, p, Full(head))
      else if diff > 0 then Goto(s, p, LoadHead(d))
      else Goto(s, p, CasHead(d, head))
    case CasHead(d, head) =>
      if s.head == head then
        Goto(s, p, StoreData(d, head)).(head := head + 1, claims := s.claims + [Claim(d, p)])
      else Goto(s, p, ReadForPush(d, s.head))
    case StoreData(d, head) =>
      Goto(SetEntry(s, head, Entry(s, head).(data := Some(d))), p, Publish(d, head))
    case Publish(d, head) =>
      Return(SetEntry(s, head, Entry(s, head).(seqno := head + 1)), p, Pushed(head, d))
      .(published := s.published + {head})
    case LoadTail => Goto(s, p, ReadForPop(s.tail))
    case ReadForPop(tail) =>
      var diff := Entry(s, tail).seqno - (tail + 1);
      if diff < 0 then Return(s, p, Empty(tail))
      else if diff > 0 then Goto(s, p, LoadTail)
      else Goto(s, p, CasTail(tail))
    case CasTail(tail) =>
      if s.tail == tail then
        Goto(s, p, CopyData(tail)).(tail := tail + 1, takers := s.takers + [p])
      else Goto(s, p, ReadForPop(s.tail))
    case CopyData(tail) => Goto(s, p, Release(tail, Entry(s, tail).data))
    case Release(tail, v) =>
      Return(SetEntry(s, tail, Entry(s, tail).(seqno := tail + s.size)), p, Popped(tail, v))
      .(released := s.released + {tail})
  }

  // A move of the scheduler: thread p starts a call, or takes one step.
  datatype Move<+T> = Begin(p: nat, c: Call<T>) | Go(p: nat)

  function Next<T>(s: State<T>, m: Move<T>): State<T>
    requires Shape(s)
  {
    if m.p >= |s.threads| then s
    else if m.Begin? then (if s.threads[m.p].Idle? then Start(s, m.p, m.c) else s)
    else Step(s, m.p)
  }

  lemma StartShape<T>(s: State<T>, p: nat, c: Call<T>)
    requires Shape(s) && p < |s.threads|
    ensures Shape(Start(s, p, c)) && Start(s, p, c).size == s.size && |Start(s, p, c).threads| == |s.threads|
  {
  }

  lemma StepShape<T>(s: State<T>, p: nat)
    requires Shape(s) && p < |s.threads|
    ensures Shape(Step(s, p)) && Step(s, p).size == s.size && |Step(s, p).threads| == |s.threads|
  {
    var t := s.threads[p];
    assert Local(t);
    assert Local(Step(s, p).threads[p]);
  }

  lemma NextShape<T>(s: State<T>, m: Move<T>)
    requires Shape(s)
    ensures Shape(Next(s, m)) && Next(s, m).size == s.size && |Next(s, m).threads| == |s.threads|
  {
    if m.p < |s.threads| {
      if m.Begin? {
        StartShape(s, m.p, m.c);
      } else {
        StepShape(s, m.p);
      }
    }
  }

  // Any interleaving: the moves of all threads in the order they happen.
  function Run<T>(s: State<T>, moves: seq<Move<T>>): (r: State<T>)
    requires Shape(s)
    ensures Shape(r) && r.size == s.size && |r.threads| == |s.threads|
    decreases |moves|
  {
    if moves == [] then s
    else
      NextShape(s, moves[0]);
      Run(Next(s, moves[0]), moves[1..])
  }

  // ---------- the invariant ----------

  // The ticket that a slot is at: its sequence number is that ticket until it is published, and
  // one more until it is released. Only for size >= 2 are the two different in the slot's terms.
  ghost predicate SlotOk<T>(s: State<T>, i: nat, t: int)
    requires Shape(s) && i < s.size
  {
    && t >= 0 && Index(t, s.size) == i && t - s.size < s.tail && s.head <= t + s.size
    && (s.slots[i].seqno == t || s.slots[i].seqno == t + 1)
    && (s.slots[i].seqno == t ==> s.tail <= t)
    && (s.slots[i].seqno == t + 1 ==> t < s.head && t < |s.claims| && s.slots[i].data == Some(s.claims[t].d))
  }

  function TicketAt<T>(s: State<T>, i: nat): int
    requires Shape(s) && i < s.size
  {
    var q := s.slots[i].seqno;
    if q >= 0 && Index(q, s.size) == i then q else q - 1
  }

  ghost predicate SlotsOk<T>(s: State<T>)
    requires Shape(s)
  {
    forall i :: 0 <= i < s.size ==> SlotOk(s, i, TicketAt(s, i))
  }

  // What a thread knows about the queue at each point of its program.
  ghost predicate ThreadOk<T>(s: State<T>, p: nat)
    requires Shape(s) && p < |s.threads|
  {
    match s.threads[p]
    case Idle => true
    case LoadHead(d) => true
    case ReadForPush(d, h) => h <= s.head
    case CasHead(d, h) => h <= s.head && (h == s.head ==> Entry(s, h).seqno == h)
    case StoreData(d, h) => h < s.head == |s.claims| && Entry(s, h).seqno == h && s.claims[h] == Claim(d, p)
    case Publish(d, h) =>
      h < s.head == |s.claims| && Entry(s, h) == Slot(Some(d), h) && s.claims[h] == Claim(d, p)
    case LoadTail => true
    case ReadForPop(t) => t <= s.tail
    case CasTail(t) => t <= s.tail && (t == s.tail ==> Entry(s, t).seqno == t + 1)
    case CopyData(t) => t < s.tail == |s.takers| && Entry(s, t).seqno == t + 1 && s.takers[t] == p
    case Release(t, v) =>
      && t < s.tail == |s.takers| && t < |s.claims| && Entry(s, t).seqno == t + 1 && s.takers[t] == p
      && v == Some(s.claims[t].d)
  }

  ghost predicate ThreadsOk<T>(s: State<T>)
    requires Shape(s)
  {
    forall p :: 0 <= p < |s.threads| ==> ThreadOk(s, p)
  }

  // Between winning ticket t and publishing or releasing it, a thread is the one the history names.
  predicate Pushing<T>(s: State<T>, p: nat, t: int) {
    && p < |s.threads|
    && (s.threads[p].StoreData? || s.threads[p].Publish?) && s.threads[p].head == t
  }

  predicate Popping<T>(s: State<T>, p: nat, t: int) {
    && p < |s.threads|
    && (s.threads[p].CopyData? || s.threads[p].Release?) && s.threads[p].tail == t
  }

  ghost predicate ClaimOk<T>(s: State<T>, t: int)
    requires Shape(s) && 0 <= t < |s.claims|
  {
    Entry(s, t).seqno == t ==> Pushing(s, s.claims[t].thread, t)
  }

  ghost predicate TakerOk<T>(s: State<T>, t: int)
    requires Shape(s) && 0 <= t < |s.takers|
  {
    Entry(s, t).seqno == t + 1 ==> Popping(s, s.takers[t], t)
  }

  ghost predicate OwnersOk<T>(s: State<T>)
    requires Shape(s)
  {
    && |s.claims| == s.head && |s.takers| == s.tail
    && (forall t :: 0 <= t < |s.claims| ==> ClaimOk(s, t))
    && (forall t :: 0 <= t < |s.takers| ==> TakerOk(s, t))
  }

  // The sequence numbers say which tickets have been published and released.
  ghost predicate HistoryOk<T>(s: State<T>)
    requires Shape(s)
  {
    && (forall t :: t in s.published <==> t >= 0 && Entry(s, t).seqno > t)
    && (forall t :: t in s.released <==> t >= 0 && Entry(s, t).seqno >= t + s.size)
  }

  // What the calls returned: pushes have distinct published tickets, pops distinct released ones,
  // and a pop returns the value pushed with the same ticket.
  ghost predicate EventOk<T>(s: State<T>, e: Event<T>) {
    && (e.Pushed? ==> e.ticket in s.published && 0 <= e.ticket < |s.claims| && s.claims[e.ticket].d == e.d)
    && (e.Popped? ==> e.ticket in s.released && 0 <= e.ticket < |s.claims| && e.v == Some(s.claims[e.ticket].d))
  }

  predicate SameTicket<T>(e: Event<T>, f: Event<T>) {
    ((e.Pushed? && f.Pushed?) || (e.Popped? && f.Popped?)) && e.ticket == f.ticket
  }

  ghost predicate LogOk<T>(s: State<T>) {
    && (forall j :: 0 <= j < |s.log| ==> EventOk(s, s.log[j]))
    && (forall j, k :: 0 <= j < k < |s.log| ==> !SameTicket(s.log[j], s.log[k]))
    && (forall t :: t in s.published ==> exists j :: 0 <= j < |s.log| && s.log[j].Pushed? && s.log[j].ticket == t)
    && (forall t :: t in s.released ==> exists j :: 0 <= j < |s.log| && s.log[j].Popped? && s.log[j].ticket == t)
  }

  ghost predicate Inv<T>(s: State<T>) {
    && Shape(s) && s.size >= 2 && s.tail <= s.head <= s.tail + s.size
    && SlotsOk(s) && ThreadsOk(s) && OwnersOk(s) && HistoryOk(s) && LogOk(s)
  }

  // ---------- every step keeps the invariant ----------

  // For size >= 2, a sequence number seen in the slot of ticket t says whether the slot is at t.
  lemma AtTicket<T>(s: State<T>, t: int)
    requires Shape(s) && SlotsOk(s) && s.size >= 2 && t >= 0
    ensures Entry(s, t).seqno == t || Entry(s, t).seqno == t + 1 ==> SlotOk(s, Index(t, s.size), t)
  {
    var i := Index(t, s.size);
    assert SlotOk(s, i, TicketAt(s, i));
    if Index(t + 1, s.size) == i {
      IndexApart(t, t + 1, s.size);
    }
  }

  // A slot is at ticket t, or at least a lap away from it.
  lemma OtherTicket<T>(s: State<T>, t: int)
    requires Shape(s) && SlotsOk(s) && s.size >= 2 && t >= 0
    ensures var q := Entry(s, t).seqno;
      q == t || q == t + 1 || q <= t + 1 - s.size || q >= t + s.size
    ensures var u := TicketAt(s, Index(t, s.size));
      u >= 0 && SlotOk(s, Index(t, s.size), u) && (u == t || u + s.size <= t || t + s.size <= u)
  {
    var i := Index(t, s.size);
    var u := TicketAt(s, i);
    assert SlotOk(s, i, u);
    if u <= t {
      IndexApart(u, t, s.size);
    } else {
      IndexApart(t, u, s.size);
    }
  }

  lemma GotoKeeps<T>(s: State<T>, p: nat, t: Thread<T>)
    requires Inv(s) && p < |s.threads| && Local(t) && ThreadOk(Goto(s, p, t), p)
    requires forall k :: !Pushing(s, p, k) && !Popping(s, p, k)
    requires !t.StoreData? && !t.Publish? && !t.CopyData? && !t.Release?
    ensures Inv(Goto(s, p, t))
  {
    var s' := Goto(s, p, t);
    forall i | 0 <= i < s.size
      ensures SlotOk(s', i, TicketAt(s', i))
    {
      assert SlotOk(s, i, TicketAt(s, i));
    }
    forall k | 0 <= k < |s'.threads|
      ensures ThreadOk(s', k)
    {
      assert k != p ==> ThreadOk(s, k);
    }
    forall k | 0 <= k < |s.claims|
      ensures ClaimOk(s', k)
    {
      assert ClaimOk(s, k);
    }
    forall k | 0 <= k < |s.takers|
      ensures TakerOk(s', k)
    {
      assert TakerOk(s, k);
    }
    forall j | 0 <= j < |s.log|
      ensures EventOk(s', s.log[j])
    {
      assert EventOk(s, s.log[j]);
    }
  }

  // A call that fails changes nothing but its thread.
  lemma FailKeeps<T>(s: State<T>, p: nat, e: Event<T>)
    requires Inv(s) && p < |s.threads| && !e.Pushed? && !e.Popped?
    requires forall k :: !Pushing(s, p, k) && !Popping(s, p, k)
    ensures Inv(Return(s, p, e))
  {
    var s' := Goto(s, p, Idle);
    GotoKeeps(s, p, Idle);
    LogGrows(s', e);
    assert Return(s, p, e) == s'.(log := s'.log + [e]);
  }

  // An event that repeats no ticket extends the log.
  lemma LogGrows<T>(s: State<T>, e: Event<T>)
    requires Inv(s) && EventOk(s, e)
    requires forall j :: 0 <= j < |s.log| ==> !SameTicket(s.log[j], e)
    ensures Inv(s.(log := s.log + [e]))
  {
    var s' := s.(log := s.log + [e]);
    forall i | 0 <= i < s.size
      ensures SlotOk(s', i, TicketAt(s', i))
    {
      assert SlotOk(s, i, TicketAt(s, i));
    }
    forall k | 0 <= k < |s.threads|
      ensures ThreadOk(s', k)
    {
      assert ThreadOk(s, k);
    }
    forall k | 0 <= k < |s.claims|
      ensures ClaimOk(s', k)
    {
      assert ClaimOk(s, k);
    }
    forall k | 0 <= k < |s.takers|
      ensures TakerOk(s', k)
    {
      assert TakerOk(s, k);
    }
    LogExtends(s, s', e);
  }

  lemma LogExtends<T>(s: State<T>, s': State<T>, e: Event<T>)
    requires LogOk(s) && EventOk(s', e) && s'.log == s.log + [e]
    requires s.published <= s'.published && s.released <= s'.released && s.claims == s'.claims
    requires forall t :: t in s'.published ==> t in s.published || (e.Pushed? && e.ticket == t)
    requires forall t :: t in s'.released ==> t in s.released || (e.Popped? && e.ticket == t)
    requires forall j :: 0 <= j < |s.log| ==> !SameTicket(s.log[j], e)
    ensures LogOk(s')
  {
    var n := |s.log|;
    assert s'.log[n] == e;
    forall j | 0 <= j <= n
      ensures EventOk(s', s'.log[j])
    {
      if j < n {
        assert EventOk(s, s.log[j]);
      }
    }
    forall t | t in s'.published
      ensures exists j :: 0 <= j < |s'.log| && s'.log[j].Pushed? && s'.log[j].ticket == t
    {
      if t in s.published {
        var j :| 0 <= j < n && s.log[j].Pushed? && s.log[j].ticket == t;
        assert s'.log[j].Pushed? && s'.log[j].ticket == t;
      }
    }
    forall t | t in s'.released
      ensures exists j :: 0 <= j < |s'.log| && s'.log[j].Popped? && s'.log[j].ticket == t
    {
      if t in s.released {
        var j :| 0 <= j < n && s.log[j].Popped? && s.log[j].ticket == t;
        assert s'.log[j].Popped? && s'.log[j].ticket == t;
      }
    }
  }

  // When the slot of ticket h is at h, no slot is still at h - size.
  lemma NoLapBehind<T>(s: State<T>, i: nat, h: int)
    requires Shape(s) && i < s.size && h >= 0 && Entry(s, h).seqno == h && SlotOk(s, i, TicketAt(s, i))
    ensures TicketAt(s, i) + s.size != h
  {
    assert Index(TicketAt(s, i) + s.size, s.size) == i;
    assert Index(h, s.size) == i ==> s.slots[i].seqno == h;
  }

  // Winning push ticket h: the slot was released, so head stays within a lap of tail.
  lemma ClaimKeeps<T>(s: State<T>, p: nat)
    requires Inv(s) && p < |s.threads| && s.threads[p].CasHead? && s.threads[p].head == s.head
    ensures Inv(Step(s, p))
  {
    hide Index;
    var s', h := Step(s, p), s.head;
    assert ThreadOk(s, p);
    AtTicket(s, h);
    forall i | 0 <= i < s.size
      ensures SlotOk(s', i, TicketAt(s', i))
    {
      assert SlotOk(s, i, TicketAt(s, i));
      NoLapBehind(s, i, h);
    }
    forall k | 0 <= k < |s'.threads|
      ensures ThreadOk(s', k)
    {
      assert k != p ==> ThreadOk(s, k);
    }
    forall k | 0 <= k < |s'.claims|
      ensures ClaimOk(s', k)
    {
      assert k < h ==> ClaimOk(s, k);
    }
    forall k | 0 <= k < |s.takers|
      ensures TakerOk(s', k)
    {
      assert TakerOk(s, k);
    }
    forall j | 0 <= j < |s.log|
      ensures EventOk(s', s.log[j])
    {
      assert EventOk(s, s.log[j]);
    }
  }

  // Winning pop ticket t: it was published, so tail stays at or below head.
  lemma TakeKeeps<T>(s: State<T>, p: nat)
    requires Inv(s) && p < |s.threads| && s.threads[p].CasTail? && s.threads[p].tail == s.tail
    ensures Inv(Step(s, p))
  {
    hide Index;
    var s', t := Step(s, p), s.tail;
    assert ThreadOk(s, p);
    AtTicket(s, t);
    forall i | 0 <= i < s.size
      ensures SlotOk(s', i, TicketAt(s', i))
    {
      assert SlotOk(s, i, TicketAt(s, i));
    }
    forall k | 0 <= k < |s'.threads|
      ensures ThreadOk(s', k)
    {
      assert k != p ==> ThreadOk(s, k);
    }
    forall k | 0 <= k < |s.claims|
      ensures ClaimOk(s', k)
    {
      assert ClaimOk(s, k);
    }
    forall k | 0 <= k < |s'.takers|
      ensures TakerOk(s', k)
    {
      assert k < t ==> TakerOk(s, k);
    }
    forall j | 0 <= j < |s.log|
      ensures EventOk(s', s.log[j])
    {
      assert EventOk(s, s.log[j]);
    }
  }

  lemma StoreKeeps<T>(s: State<T>, p: nat)
    requires Inv(s) && p < |s.threads| && s.threads[p].StoreData?
    ensures Inv(Step(s, p))
  {
    hide Index;
    var s', h := Step(s, p), s.threads[p].head;
    StoreSlots(s, p);
    assert ThreadOk(s, p);
    forall k | 0 <= k < |s'.threads|
      ensures ThreadOk(s', k)
    {
      assert k != p ==> ThreadOk(s, k);
    }
    forall k | 0 <= k < |s.claims|
      ensures ClaimOk(s', k)
    {
      assert ClaimOk(s, k);
    }
    forall k | 0 <= k < |s.takers|
      ensures TakerOk(s', k)
    {
      assert TakerOk(s, k);
    }
    forall j | 0 <= j < |s.log|
      ensures EventOk(s', s.log[j])
    {
      assert EventOk(s, s.log[j]);
    }
  }

  lemma StoreSlots<T>(s: State<T>, p: nat)
    requires Inv(s) && p < |s.threads| && s.threads[p].StoreData?
    ensures Shape(Step(s, p)) && SlotsOk(Step(s, p))
  {
    var s', h := Step(s, p), s.threads[p].head;
    assert ThreadOk(s, p);
    AtTicket(s, h);
    forall i | 0 <= i < s.size
      ensures SlotOk(s', i, TicketAt(s', i))
    {
      assert SlotOk(s, i, TicketAt(s, i));
    }
  }

  lemma CopyKeeps<T>(s: State<T>, p: nat)
    requires Inv(s) && p < |s.threads| && s.threads[p].CopyData?
    ensures Inv(Step(s, p))
  {
    hide Index;
    var s', t := Step(s, p), s.threads[p].tail;
    assert ThreadOk(s, p);
    AtTicket(s, t);
    forall i | 0 <= i < s.size
      ensures SlotOk(s', i, TicketAt(s', i))
    {
      assert SlotOk(s, i, TicketAt(s, i));
    }
    forall k | 0 <= k < |s'.threads|
      ensures ThreadOk(s', k)
    {
      assert k != p ==> ThreadOk(s, k);
    }
    forall k | 0 <= k < |s.claims|
      ensures ClaimOk(s', k)
    {
      assert ClaimOk(s, k);
    }
    forall k | 0 <= k < |s.takers|
      ensures TakerOk(s', k)
    {
      assert TakerOk(s, k);
    }
    forall j | 0 <= j < |s.log|
      ensures EventOk(s', s.log[j])
    {
      assert EventOk(s, s.log[j]);
    }
  }

  // Neighbouring tickets never share a slot.
  lemma Neighbours(a: int, b: int, size: nat)
    requires a >= 0 && b >= 0 && size >= 2 && Index(a, size) == Index(b, size)
    ensures a != b + 1 && b != a + 1
    ensures a < b ==> a + size <= b
    ensures b < a ==> b + size <= a
  {
    if a <= b {
      IndexApart(a, b, size);
    } else {
      IndexApart(b, a, size);
    }
  }

  // The slot of ticket h goes from h to h + 1: published, and no other ticket notices.
  lemma PublishKeeps<T>(s: State<T>, p: nat)
    requires Inv(s) && p < |s.threads| && s.threads[p].Publish?
    ensures Inv(Step(s, p))
  {
    var s' := Step(s, p);
    PublishSlots(s, p);
    PublishOwners(s, p);
    PublishHistory(s, p);
    forall k | 0 <= k < |s'.threads|
      ensures ThreadOk(s', k)
    {
      PublishThread(s, p, k);
    }
  }

  lemma PublishSlots<T>(s: State<T>, p: nat)
    requires Inv(s) && p < |s.threads| && s.threads[p].Publish?
    ensures Shape(Step(s, p)) && SlotsOk(Step(s, p))
  {
    var s', h, n := Step(s, p), s.threads[p].head, s.size;
    var at := Index(h, n);
    assert ThreadOk(s, p);
    AtTicket(s, h);
    forall i | 0 <= i < n
      ensures SlotOk(s', i, TicketAt(s', i))
    {
      assert SlotOk(s, i, TicketAt(s, i));
      if i == at && Index(h + 1, n) == at {
        Neighbours(h, h + 1, n);
      }
    }
  }

  lemma PublishOwners<T>(s: State<T>, p: nat)
    requires Inv(s) && p < |s.threads| && s.threads[p].Publish?
    ensures Shape(Step(s, p)) && OwnersOk(Step(s, p))
  {
    var s', h, n := Step(s, p), s.threads[p].head, s.size;
    assert ThreadOk(s, p);
    AtTicket(s, h);
    forall k | 0 <= k < |s.claims|
      ensures ClaimOk(s', k)
    {
      assert ClaimOk(s, k);
      if Index(k, n) == Index(h, n) {
        Neighbours(k, h, n);
      }
    }
    forall k | 0 <= k < |s.takers|
      ensures TakerOk(s', k)
    {
      assert TakerOk(s, k);
    }
  }

  lemma PublishEntry<T>(s: State<T>, p: nat, k: int)
    requires Inv(s) && p < |s.threads| && s.threads[p].Publish? && k >= 0
    ensures Shape(Step(s, p))
    ensures Entry(Step(s, p), k).seqno > k <==> Entry(s, k).seqno > k || k == s.threads[p].head
    ensures Entry(Step(s, p), k).seqno >= k + s.size <==> Entry(s, k).seqno >= k + s.size
  {
    hide SlotOk, Index, HistoryOk, LogOk, EventOk;
    var h, n := s.threads[p].head, s.size;
    assert ThreadOk(s, p);
    if Index(k, n) == Index(h, n) {
      Neighbours(k, h, n);
    }
  }

  lemma PublishHistory<T>(s: State<T>, p: nat)
    requires Inv(s) && p < |s.threads| && s.threads[p].Publish?
    ensures Shape(Step(s, p)) && HistoryOk(Step(s, p)) && LogOk(Step(s, p))
  {
    hide SlotOk, Index, Entry;
    var s', h := Step(s, p), s.threads[p].head;
    assert ThreadOk(s, p);
    forall k: int | k >= 0
      ensures Entry(s', k).seqno > k <==> Entry(s, k).seqno > k || k == h
      ensures Entry(s', k).seqno >= k + s.size <==> Entry(s, k).seqno >= k + s.size
    {
      PublishEntry(s, p, k);
    }
    LogExtends(s, s', Pushed(h, s.threads[p].d));
  }

  lemma PublishThread<T>(s: State<T>, p: nat, k: nat)
    requires Inv(s) && p < |s.threads| && k < |s.threads| && s.threads[p].Publish?
    ensures Shape(Step(s, p)) && ThreadOk(Step(s, p), k)
  {
    hide SlotOk, HistoryOk, LogOk, Index;
    var t := s.threads[k];
    var h := s.threads[p].head;
    assert ThreadOk(s, p) && ThreadOk(s, k);
    if t.CasTail? || t.CopyData? || t.Release? {
      if Index(t.tail, s.size) == Index(h, s.size) {
        Neighbours(t.tail, h, s.size);
      }
    }
  }

  lemma ReleaseThread<T>(s: State<T>, p: nat, k: nat)
    requires Inv(s) && p < |s.threads| && k < |s.threads| && s.threads[p].Release?
    ensures Shape(Step(s, p)) && ThreadOk(Step(s, p), k)
  {
    hide SlotOk, HistoryOk, LogOk, Index;
    var t := s.threads[k];
    var tail := s.threads[p].tail;
    assert ThreadOk(s, p) && ThreadOk(s, k);
    if t.CasHead? || t.StoreData? || t.Publish? {
      if Index(t.head, s.size) == Index(tail, s.size) {
        Neighbours(t.head, tail, s.size);
      }
    }
  }

  // The slot of ticket t goes from t + 1 to t + size: free for the next lap.
  lemma ReleaseKeeps<T>(s: State<T>, p: nat)
    requires Inv(s) && p < |s.threads| && s.threads[p].Release?
    ensures Inv(Step(s, p))
  {
    var s' := Step(s, p);
    ReleaseSlots(s, p);
    ReleaseOwners(s, p);
    ReleaseHistory(s, p);
    forall k | 0 <= k < |s'.threads|
      ensures ThreadOk(s', k)
    {
      ReleaseThread(s, p, k);
    }
  }

  lemma ReleaseSlots<T>(s: State<T>, p: nat)
    requires Inv(s) && p < |s.threads| && s.threads[p].Release?
    ensures Shape(Step(s, p)) && SlotsOk(Step(s, p))
  {
    hide HistoryOk, LogOk;
    var s', t, n := Step(s, p), s.threads[p].tail, s.size;
    var at := Index(t, n);
    assert ThreadOk(s, p);
    AtTicket(s, t);
    assert Index(t + n, n) == at;
    forall i | 0 <= i < n
      ensures SlotOk(s', i, TicketAt(s', i))
    {
      assert SlotOk(s, i, TicketAt(s, i));
    }
  }

  lemma ReleaseOwners<T>(s: State<T>, p: nat)
    requires Inv(s) && p < |s.threads| && s.threads[p].Release?
    ensures Shape(Step(s, p)) && OwnersOk(Step(s, p))
  {
    var s', t, n := Step(s, p), s.threads[p].tail, s.size;
    var at := Index(t, n);
    assert ThreadOk(s, p);
    AtTicket(s, t);
    assert Index(t + n, n) == at;
    forall k | 0 <= k < |s.claims|
      ensures ClaimOk(s', k)
    {
      assert ClaimOk(s, k);
    }
    forall k | 0 <= k < |s.takers|
      ensures TakerOk(s', k)
    {
      assert TakerOk(s, k);
      if Index(k, n) == at {
        Neighbours(k, t + n, n);
      }
    }
  }

  lemma ReleaseEntry<T>(s: State<T>, p: nat, k: int)
    requires Inv(s) && p < |s.threads| && s.threads[p].Release? && k >= 0
    ensures Shape(Step(s, p))
    ensures Entry(Step(s, p), k).seqno > k <==> Entry(s, k).seqno > k
    ensures Entry(Step(s, p), k).seqno >= k + s.size
      <==> Entry(s, k).seqno >= k + s.size || k == s.threads[p].tail
  {
    hide SlotOk, Index, HistoryOk, LogOk, EventOk;
    var t, n := s.threads[p].tail, s.size;
    assert ThreadOk(s, p);
    if Index(k, n) == Index(t, n) {
      Neighbours(k, t, n);
    }
  }

  lemma ReleaseHistory<T>(s: State<T>, p: nat)
    requires Inv(s) && p < |s.threads| && s.threads[p].Release?
    ensures Shape(Step(s, p)) && HistoryOk(Step(s, p)) && LogOk(Step(s, p))
  {
    hide SlotOk, Index, Entry;
    var s', t := Step(s, p), s.threads[p].tail;
    assert ThreadOk(s, p);
    forall k: int | k >= 0
      ensures Entry(s', k).seqno > k <==> Entry(s, k).seqno > k
      ensures Entry(s', k).seqno >= k + s.size <==> Entry(s, k).seqno >= k + s.size || k == t
    {
      ReleaseEntry(s, p, k);
    }
    LogExtends(s, s', Popped(t, s.threads[p].v));
  }

  lemma CreateInv<T>(size: int, threads: nat)
    requires size >= 2
    ensures Inv(Create<T>(size, threads).value)
  {
    var s := Create<T>(size, threads).value;
    forall i | 0 <= i < size
      ensures SlotOk(s, i, TicketAt(s, i))
    {
    }
    forall k: int | k >= 0
      ensures Entry(s, k).seqno <= k
    {
    }
  }

  lemma StartKeeps<T>(s: State<T>, p: nat, c: Call<T>)
    requires Inv(s) && p < |s.threads| && s.threads[p].Idle?
    ensures Inv(Start(s, p, c))
  {
    match c
    case Push(data) => if data.None? { FailKeeps(s, p, NullArgument); } else { GotoKeeps(s, p, LoadHead(data.value)); }
    case Pop(hasResult) => if !hasResult { FailKeeps(s, p, NullArgument); } else { GotoKeeps(s, p, LoadTail); }
  }

  lemma StepKeeps<T>(s: State<T>, p: nat)
    requires Inv(s) && p < |s.threads|
    ensures Inv(Step(s, p))
  {
    assert ThreadOk(s, p);
    match s.threads[p]
    case Idle =>
    case LoadHead(d) => GotoKeeps(s, p, ReadForPush(d, s.head));
    case ReadForPush(d, h) => ReadKeeps(s, p);
    case CasHead(d, h) => if s.head == h { ClaimKeeps(s, p); } else { GotoKeeps(s, p, ReadForPush(d, s.head)); }
    case StoreData(d, h) => StoreKeeps(s, p);
    case Publish(d, h) => PublishKeeps(s, p);
    case LoadTail => GotoKeeps(s, p, ReadForPop(s.tail));
    case ReadForPop(t) => ReadKeeps(s, p);
    case CasTail(t) => if s.tail == t { TakeKeeps(s, p); } else { GotoKeeps(s, p, ReadForPop(s.tail)); }
    case CopyData(t) => CopyKeeps(s, p);
    case Release(t, v) => ReleaseKeeps(s, p);
  }

  lemma ReadKeeps<T>(s: State<T>, p: nat)
    requires Inv(s) && p < |s.threads| && (s.threads[p].ReadForPush? || s.threads[p].ReadForPop?)
    ensures Inv(Step(s, p))
  {
    assert ThreadOk(s, p);
    var t := s.threads[p];
    if t.ReadForPush? {
      var diff := Entry(s, t.head).seqno - t.head;
      if diff < 0 {
        FailKeeps(s, p, Full(t.head));
      } else {
        GotoKeeps(s, p, if diff > 0 then LoadHead(t.d) else CasHead(t.d, t.head));
      }
    } else {
      var diff := Entry(s, t.tail).seqno - (t.tail + 1);
      if diff < 0 {
        FailKeeps(s, p, Empty(t.tail));
      } else {
        GotoKeeps(s, p, if diff > 0 then LoadTail else CasTail(t.tail));
      }
    }
  }

  lemma NextKeeps<T>(s: State<T>, m: Move<T>)
    requires Inv(s)
    ensures Inv(Next(s, m))
  {
    if m.p < |s.threads| {
      if m.Go? {
        StepKeeps(s, m.p);
      } else if s.threads[m.p].Idle? {
        StartKeeps(s, m.p, m.c);
      }
    }
  }

  // The invariant holds in every state of every interleaving.
  lemma {:induction false} RunKeeps<T>(s: State<T>, moves: seq<Move<T>>)
    requires Inv(s)
    ensures Inv(Run(s, moves))
    decreases |moves|
  {
    if moves == [] {
    } else {
      NextKeeps(s, moves[0]);
      RunKeeps(Next(s, moves[0]), moves[1..]);
    }
  }
}
