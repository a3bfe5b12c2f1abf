// What the bounded queue guarantees in every interleaving, and why its size must be at least 2.
module QueueTheorems {
  import opened Options
  import opened AtomicQueue

  // Any number of threads, in any order, on a fresh queue.
  function After<T>(size: nat, threads: nat, moves: seq<Move<T>>): (s: State<T>)
    requires size > 0
    ensures Shape(s) && s.size == size && |s.threads| == threads
  {
    Run(Create(size, threads).value, moves)
  }

  lemma AfterInv<T>(size: nat, threads: nat, moves: seq<Move<T>>)
    requires size >= 2
    ensures Inv(After(size, threads, moves))
  {
    CreateInv<T>(size, threads);
    RunKeeps(Create(size, threads).value, moves);
  }

  // ---------- at most size tickets are outstanding ----------

  lemma Bounded<T>(size: nat, threads: nat, moves: seq<Move<T>>)
    requires size >= 2
    ensures var s := After(size, threads, moves);
      0 <= s.tail == |s.takers| <= s.head == |s.claims| <= s.tail + size
  {
    AfterInv(size, threads, moves);
  }

  // ---------- who owns a slot ----------

  ghost predicate Owns<T>(s: State<T>, p: nat, i: nat)
    requires Shape(s)
  {
    exists t :: t >= 0 && Index(t, s.size) == i && (Pushing(s, p, t) || Popping(s, p, t))
  }

  datatype Phase = Free | Claimed | Published | Draining

  // A slot's sequence number, with head and tail, says what state its current ticket is in.
  function PhaseOf<T>(s: State<T>, i: nat): Phase
    requires Shape(s) && i < s.size
  {
    var t := TicketAt(s, i);
    if s.slots[i].seqno == t then (if t < s.head then Claimed else Free)
    else if t < s.tail then Draining else Published
  }

  lemma OwnerTicket<T>(s: State<T>, p: nat, t: int)
    requires Inv(s) && t >= 0 && (Pushing(s, p, t) || Popping(s, p, t))
    ensures TicketAt(s, Index(t, s.size)) == t
    ensures Pushing(s, p, t) ==>
      PhaseOf(s, Index(t, s.size)) == Claimed && t < |s.claims| && s.claims[t].thread == p
    ensures Popping(s, p, t) ==>
      PhaseOf(s, Index(t, s.size)) == Draining && t < |s.takers| && s.takers[t] == p
  {
    assert ThreadOk(s, p);
    assert SlotOk(s, Index(t, s.size), TicketAt(s, Index(t, s.size)));
    OtherTicket(s, t);
  }

  // Exactly one thread owns a claimed or draining slot, from its compare-and-swap to its store of
  // the sequence number; nobody owns a free or published one, whose data is in place.
  lemma SlotPhase<T>(s: State<T>, i: nat)
    requires Inv(s) && i < s.size
    ensures var t := TicketAt(s, i);
      match PhaseOf(s, i)
      case Free => s.head <= t && forall p :: !Owns(s, p, i)
      case Claimed =>
        s.tail <= t < s.head && forall p :: Owns(s, p, i) <==> p == s.claims[t].thread
      case Published =>
        s.tail <= t < s.head && s.slots[i].data == Some(s.claims[t].d) && forall p :: !Owns(s, p, i)
      case Draining =>
        0 <= t < s.tail && forall p :: Owns(s, p, i) <==> p == s.takers[t]
  {
    var t := TicketAt(s, i);
    assert SlotOk(s, i, t);
    forall p: nat | Owns(s, p, i)
      ensures PhaseOf(s, i) == Claimed ==> p == s.claims[t].thread
      ensures PhaseOf(s, i) == Draining ==> p == s.takers[t]
      ensures PhaseOf(s, i).Claimed? || PhaseOf(s, i).Draining?
    {
      var k :| k >= 0 && Index(k, s.size) == i && (Pushing(s, p, k) || Popping(s, p, k));
      OwnerTicket(s, p, k);
    }
    if PhaseOf(s, i).Claimed? {
      assert ClaimOk(s, t);
    } else if PhaseOf(s, i).Draining? {
      assert TakerOk(s, t);
    }
  }

  // ---------- first in, first out, with nothing lost or duplicated ----------

  ghost predicate ReturnedPush<T>(s: State<T>, t: int, d: T) {
    exists j :: 0 <= j < |s.log| && s.log[j] == Pushed(t, d)
  }

  // A pop returns what the push with the same ticket stored, after that push returned; no ticket is
  // pushed or popped twice; the tickets popped are the lowest ones.
  lemma Fifo<T>(size: nat, threads: nat, moves: seq<Move<T>>, j: nat)
    requires size >= 2
    ensures var s := After(size, threads, moves);
      j < |s.log| ==>
        var e := s.log[j];
        && (e.Popped? ==> 0 <= e.ticket < s.tail && e.v.Some? && ReturnedPush(s, e.ticket, e.v.value))
        && (e.Pushed? ==> 0 <= e.ticket < |s.claims| && s.claims[e.ticket].d == e.d)
        && (forall k :: 0 <= k < |s.log| && k != j ==> !SameTicket(s.log[k], e))
  {
    AfterInv(size, threads, moves);
    var s := After(size, threads, moves);
    if j < |s.log| {
      var e := s.log[j];
      assert EventOk(s, e);
      if e.Popped? || e.Pushed? {
        TicketBounds(s, e.ticket);
      }
      if e.Popped? {
        var i :| 0 <= i < |s.log| && s.log[i].Pushed? && s.log[i].ticket == e.ticket;
        assert EventOk(s, s.log[i]);
      }
    }
  }

  // Published tickets were claimed, and released tickets were published and taken.
  lemma TicketBounds<T>(s: State<T>, t: int)
    requires Inv(s)
    ensures t in s.published ==> 0 <= t < s.head
    ensures t in s.released ==> 0 <= t < s.tail && t in s.published
  {
    if t >= 0 {
      OtherTicket(s, t);
    }
  }

  // Every value whose push has returned is still in its slot, or has been popped, or is being
  // popped by exactly the thread that won its pop ticket.
  lemma NothingLost<T>(size: nat, threads: nat, moves: seq<Move<T>>, t: int)
    requires size >= 2
    ensures var s := After(size, threads, moves);
      t in s.published ==>
        || t in s.released
        || (0 <= t < |s.takers| && t < |s.claims| && Popping(s, s.takers[t], t) && Entry(s, t) == Slot(Some(s.claims[t].d), t + 1))
        || (s.tail <= t < |s.claims| && Entry(s, t) == Slot(Some(s.claims[t].d), t + 1))
  {
    AfterInv(size, threads, moves);
    var s := After(size, threads, moves);
    TicketBounds(s, t);
    if t in s.published && t !in s.released {
      OtherTicket(s, t);
      AtTicket(s, t);
      if t < s.tail {
        assert TakerOk(s, t);
      }
    }
  }

  predicate Quiet<T>(s: State<T>) {
    forall p :: 0 <= p < |s.threads| ==> s.threads[p].Idle?
  }

  // When no call is in progress the pushes that have returned are the tickets below head, the pops
  // are those below tail, and the queue holds the values in between, in order.
  lemma QuietQueue<T>(size: nat, threads: nat, moves: seq<Move<T>>, t: int)
    requires size >= 2 && Quiet(After(size, threads, moves))
    ensures var s := After(size, threads, moves);
      && (t in s.published <==> 0 <= t < s.head)
      && (t in s.released <==> 0 <= t < s.tail)
      && (s.tail <= t < |s.claims| ==> Entry(s, t) == Slot(Some(s.claims[t].d), t + 1))
  {
    AfterInv(size, threads, moves);
    var s := After(size, threads, moves);
    TicketBounds(s, t);
    if 0 <= t < s.head {
      OtherTicket(s, t);
      assert ClaimOk(s, t);
      if t < s.tail {
        assert TakerOk(s, t);
      }
    }
  }

  // Tickets are handed out in order and never taken back: what has happened stays so.
  lemma {:induction false} HistoryGrows<T>(s: State<T>, moves: seq<Move<T>>)
    requires Shape(s)
    ensures var s' := Run(s, moves);
      && s.claims <= s'.claims && s.takers <= s'.takers && s.log <= s'.log
      && s.published <= s'.published && s.released <= s'.released
    decreases |moves|
  {
    if moves == [] {
    } else {
      NextShape(s, moves[0]);
      NextGrows(s, moves[0]);
      HistoryGrows(Next(s, moves[0]), moves[1..]);
    }
  }

  lemma NextGrows<T>(s: State<T>, m: Move<T>)
    requires Shape(s)
    ensures var s' := Next(s, m);
      && s.claims <= s'.claims && s.takers <= s'.takers && s.log <= s'.log
      && s.published <= s'.published && s.released <= s'.released
  {
  }

  // A push that wins its ticket after another push has returned gets a later ticket.
  lemma PushOrder<T>(s: State<T>, moves: seq<Move<T>>, e: Event<T>, p: nat)
    requires Inv(s) && e in s.log && e.Pushed?
    requires var s' := Run(s, moves); p < |s'.threads| && s'.threads[p].CasHead?
    ensures var s' := Run(s, moves);
      var s'' := Step(s', p);
      s''.threads[p].StoreData? ==> e.ticket < s''.threads[p].head
  {
    var j :| 0 <= j < |s.log| && s.log[j] == e;
    assert EventOk(s, s.log[j]);
    RunKeeps(s, moves);
    HistoryGrows(s, moves);
  }

  // ---------- failure is justified ----------

  // A push whose read of the sequence number shows an older lap returns false, and that happens
  // exactly when the ticket one lap before has not been released.
  lemma PushFailsIff<T>(s: State<T>, p: nat)
    requires Inv(s) && p < |s.threads| && s.threads[p].ReadForPush?
    ensures var h := s.threads[p].head;
      Step(s, p).log == s.log + [Full(h)] <==> h >= s.size && h - s.size !in s.released
    ensures s.threads[p].head <= s.head
  {
    assert ThreadOk(s, p);
    var h := s.threads[p].head;
    OtherTicket(s, h);
    if h >= s.size {
      assert Index(h - s.size, s.size) == Index(h, s.size);
    }
    assert s.log + [Full(h)] != s.log;
  }

  // A pop returns false exactly when its ticket has not been published.
  lemma PopFailsIff<T>(s: State<T>, p: nat)
    requires Inv(s) && p < |s.threads| && s.threads[p].ReadForPop?
    ensures var t := s.threads[p].tail;
      Step(s, p).log == s.log + [Empty(t)] <==> t !in s.published
  {
    assert ThreadOk(s, p);
    var t := s.threads[p].tail;
    assert s.log + [Empty(t)] != s.log;
  }

  // A thread goes round its loop again only when another thread has won the ticket it was after.
  lemma RetryMeansProgress<T>(s: State<T>, p: nat)
    requires Inv(s) && p < |s.threads|
    ensures var t, t' := s.threads[p], Step(s, p).threads[p];
      && ((t.ReadForPush? && t'.LoadHead?) || (t.CasHead? && t'.ReadForPush?)
          ==> t.head < s.head == |s.claims|)
      && ((t.ReadForPop? && t'.LoadTail?) || (t.CasTail? && t'.ReadForPop?)
          ==> t.tail < s.tail == |s.takers|)
  {
    assert ThreadOk(s, p);
    var t := s.threads[p];
    if t.ReadForPush? {
      OtherTicket(s, t.head);
    } else if t.ReadForPop? {
      OtherTicket(s, t.tail);
    }
  }

  // ---------- one call at a time ----------

  function Steps<T>(s: State<T>, p: nat, n: nat): (r: State<T>)
    requires Shape(s) && p < |s.threads|
    ensures Shape(r) && |r.threads| == |s.threads| && r.size == s.size
    decreases n
  {
    if n == 0 then s
    else
      NextShape(s, Go(p));
      Steps(Step(s, p), p, n - 1)
  }

  lemma OneStep<T>(s: State<T>, p: nat, n: nat)
    requires Shape(s) && p < |s.threads| && n > 0
    ensures Shape(Step(s, p)) && Steps(s, p, n) == Steps(Step(s, p), p, n - 1)
  {
    NextShape(s, Go(p));
  }

  // The last three steps of a push: win ticket head, store the data, publish.
  lemma WinPush<T>(s: State<T>, p: nat)
    requires Shape(s) && p < |s.threads| && s.threads[p].CasHead? && s.threads[p].head == s.head
    ensures var r, d := Steps(s, p, 3), s.threads[p].d;
      && r.log == s.log + [Pushed(s.head, d)] && r.threads == s.threads[p := Idle]
      && r.head == s.head + 1 && r.tail == s.tail && r.claims == s.claims + [Claim(d, p)]
      && r.slots == s.slots[Index(s.head, s.size) := Slot(Some(d), s.head + 1)]
  {
    OneStep(s, p, 3);
    var s1 := Step(s, p);
    OneStep(s1, p, 2);
    var s2 := Step(s1, p);
    OneStep(s2, p, 1);
  }

  // A push that runs alone returns within five steps: false exactly when the ticket a lap before
  // head has not been released.
  lemma PushAlone<T>(s: State<T>, p: nat)
    requires Inv(s) && p < |s.threads| && s.threads[p].LoadHead?
    ensures var d := s.threads[p].d;
      if s.head >= s.size && s.head - s.size !in s.released then
        Steps(s, p, 2).log == s.log + [Full(s.head)] && Steps(s, p, 2).threads == s.threads[p := Idle]
      else
        var r := Steps(s, p, 5);
        && r.log == s.log + [Pushed(s.head, d)] && r.threads == s.threads[p := Idle]
        && r.head == s.head + 1 && r.tail == s.tail && r.claims == s.claims + [Claim(d, p)]
  {
    PushReads(s, p);
    var s2 := Steps(s, p, 2);
    OneStep(s, p, 5);
    OneStep(Step(s, p), p, 4);
    if s2.threads[p].CasHead? {
      WinPush(s2, p);
    }
  }

  // Loading head and reading the slot: full, or the ticket can be won.
  lemma PushReads<T>(s: State<T>, p: nat)
    requires Inv(s) && p < |s.threads| && s.threads[p].LoadHead?
    ensures var s2 := Steps(s, p, 2);
      if s.head >= s.size && s.head - s.size !in s.released then
        s2.log == s.log + [Full(s.head)] && s2.threads == s.threads[p := Idle]
      else
        && s2.threads == s.threads[p := CasHead(s.threads[p].d, s.head)] && s2.log == s.log
        && s2.head == s.head && s2.tail == s.tail && s2.claims == s.claims
  {
    TwoSteps(s, p);
    StepKeeps(s, p);
    ReadsAtHead(s, Step(s, p), p);
  }

  lemma TwoSteps<T>(s: State<T>, p: nat)
    requires Shape(s) && p < |s.threads|
    ensures Shape(Step(s, p)) && Steps(s, p, 2) == Step(Step(s, p), p)
  {
    OneStep(s, p, 2);
    OneStep(Step(s, p), p, 1);
  }

  lemma ReadsAtHead<T>(s: State<T>, s1: State<T>, p: nat)
    requires p < |s.threads| && s.threads[p].LoadHead?
    requires s1 == Goto(s, p, ReadForPush(s.threads[p].d, s.head)) && Inv(s1)
    ensures var s2 := Step(s1, p);
      if s.head >= s.size && s.head - s.size !in s.released then
        s2.log == s.log + [Full(s.head)] && s2.threads == s.threads[p := Idle]
      else
        && s2.threads == s.threads[p := CasHead(s.threads[p].d, s.head)] && s2.log == s.log
        && s2.head == s.head && s2.tail == s.tail && s2.claims == s.claims
  {
    PushFailsIff(s1, p);
    RetryMeansProgress(s1, p);
    Overwrite(s.threads, p, s1.threads[p], Idle);
    Overwrite(s.threads, p, s1.threads[p], CasHead(s.threads[p].d, s.head));
  }

  lemma Overwrite<X>(q: seq<X>, p: nat, x: X, y: X)
    requires p < |q|
    ensures q[p := x][p := y] == q[p := y]
  {
  }

  lemma WinPop<T>(s: State<T>, p: nat)
    requires Shape(s) && p < |s.threads| && s.threads[p].CasTail? && s.threads[p].tail == s.tail
    ensures var r := Steps(s, p, 3);
      && r.log == s.log + [Popped(s.tail, Entry(s, s.tail).data)] && r.threads == s.threads[p := Idle]
      && r.head == s.head && r.tail == s.tail + 1 && r.claims == s.claims
  {
    OneStep(s, p, 3);
    var s1 := Step(s, p);
    OneStep(s1, p, 2);
    var s2 := Step(s1, p);
    OneStep(s2, p, 1);
  }

  // A pop that runs alone returns within five steps: false exactly when ticket tail has not been
  // published, and the value pushed with that ticket otherwise.
  lemma PopAlone<T>(s: State<T>, p: nat)
    requires Inv(s) && p < |s.threads| && s.threads[p].LoadTail?
    ensures if s.tail !in s.published then
        Steps(s, p, 2).log == s.log + [Empty(s.tail)] && Steps(s, p, 2).threads == s.threads[p := Idle]
      else
        var r := Steps(s, p, 5);
        && s.tail < |s.claims|
        && r.log == s.log + [Popped(s.tail, Some(s.claims[s.tail].d))] && r.threads == s.threads[p := Idle]
        && r.head == s.head && r.tail == s.tail + 1 && r.claims == s.claims
  {
    var s1 := Step(s, p);
    StepKeeps(s, p);
    OneStep(s, p, 2);
    OneStep(s, p, 5);
    OneStep(s1, p, 1);
    OneStep(s1, p, 4);
    PopFailsIff(s1, p);
    RetryMeansProgress(s1, p);
    if s.tail in s.published {
      WinPop(Step(s1, p), p);
      AtTicket(s, s.tail);
      OtherTicket(s, s.tail);
      TicketBounds(s, s.tail);
    }
  }

  // When nobody else is in the queue, a push fails exactly when it holds size values, and a pop
  // exactly when it holds none.
  lemma QuietFull<T>(size: nat, threads: nat, moves: seq<Move<T>>)
    requires size >= 2 && Quiet(After(size, threads, moves))
    ensures var s := After(size, threads, moves);
      && (s.head >= s.size && s.head - s.size !in s.released <==> s.head == s.tail + size)
      && (s.tail !in s.published <==> s.head == s.tail)
  {
    AfterInv(size, threads, moves);
    var s := After(size, threads, moves);
    QuietQueue(size, threads, moves, s.head - size);
    QuietQueue(size, threads, moves, s.tail);
  }

  // ---------- size 1 ----------

  lemma {:induction false} RunConcat<T>(s: State<T>, a: seq<Move<T>>, b: seq<Move<T>>)
    requires Shape(s)
    ensures Run(s, a + b) == Run(Run(s, a), b)
    decreases |a|
  {
    if a == [] {
      assert a + b == b;
    } else {
      NextShape(s, a[0]);
      assert (a + b)[1..] == a[1..] + b;
      RunConcat(Next(s, a[0]), a[1..], b);
    }
  }

  function Calls<T>(p: nat, c: Call<T>, n: nat): seq<Move<T>> {
    [Begin(p, c)] + seq(n, _ => Go(p))
  }

  lemma {:induction false} GoSteps<T>(s: State<T>, p: nat, n: nat)
    requires Shape(s) && p < |s.threads|
    ensures Run(s, seq(n, _ => Go(p))) == Steps(s, p, n)
    decreases n
  {
    if n > 0 {
      OneStep(s, p, n);
      var moves: seq<Move<T>> := seq(n, _ => Go(p));
      assert moves[1..] == seq(n - 1, _ => Go(p));
      GoSteps(Step(s, p), p, n - 1);
    }
  }

  lemma CallSteps<T>(s: State<T>, p: nat, c: Call<T>, n: nat)
    requires Shape(s) && p < |s.threads| && s.threads[p].Idle?
    ensures Shape(Start(s, p, c)) && Run(s, Calls(p, c, n)) == Steps(Start(s, p, c), p, n)
  {
    NextShape(s, Begin(p, c));
    assert Calls(p, c, n)[1..] == seq(n, _ => Go(p));
    GoSteps(Start(s, p, c), p, n);
  }

  // A push into a queue of size 1, with no other thread: the slot of the previous value is taken
  // for free, because "published" and "free for the next lap" are the same number.
  lemma PushOntoOne<T>(s: State<T>, d: T)
    requires Shape(s) && s.size == 1 && s.threads == [Idle] && s.slots[0].seqno == s.head
    ensures var r := Run(s, Calls(0, Push(Some(d)), 5));
      && r.threads == [Idle] && r.slots == [Slot(Some(d), s.head + 1)] && r.head == s.head + 1 && r.tail == s.tail
      && r.log == s.log + [Pushed(s.head, d)]
  {
    CallSteps(s, 0, Push(Some(d)), 5);
    var s0 := Start(s, 0, Push(Some(d)));
    OneStep(s0, 0, 5);
    OneStep(Step(s0, 0), 0, 4);
    OneReads(s0);
    WinPush(Step(Step(s0, 0), 0), 0);
  }

  lemma OneReads<T>(s: State<T>)
    requires Shape(s) && s.size == 1 && |s.threads| == 1 && s.threads[0].LoadHead? && s.slots[0].seqno == s.head
    ensures Shape(Step(s, 0)) && Step(Step(s, 0), 0) == s.(threads := [CasHead(s.threads[0].d, s.head)])
  {
    assert Entry(s, s.head) == s.slots[0];
    var s1 := Step(s, 0);
    assert s1 == s.(threads := [ReadForPush(s.threads[0].d, s.head)]);
  }

  // One thread pushes x and then y into a queue of size 1: both pushes succeed and x is gone.
  function TwoPushes<T>(x: T, y: T): seq<Move<T>> {
    Calls(0, Push(Some(x)), 5) + Calls(0, Push(Some(y)), 5)
  }

  lemma SizeOneLoses<T>(x: T, y: T)
    ensures var s := After(1, 1, TwoPushes(x, y));
      s.log == [Pushed(0, x), Pushed(1, y)] && s.slots == [Slot(Some(y), 2)] && s.head == 2 && s.tail == 0
      && s.threads == [Idle]
  {
    var s := Create<T>(1, 1).value;
    PushOntoOne(s, x);
    PushOntoOne(Run(s, Calls(0, Push(Some(x)), 5)), y);
    RunConcat(s, Calls(0, Push(Some(x)), 5), Calls(0, Push(Some(y)), 5));
  }

  // After that no pop ever returns: it goes round its loop without end.
  lemma SizeOneSpins<T>(x: T, y: T)
    ensures var s := Start(After(1, 1, TwoPushes(x, y)), 0, Pop(true));
      Shape(s) && Steps(s, 0, 2) == s && s.threads[0].LoadTail?
  {
    SizeOneLoses(x, y);
    var s := Start(After(1, 1, TwoPushes(x, y)), 0, Pop(true));
    NextShape(After(1, 1, TwoPushes(x, y)), Begin(0, Pop(true)));
    OneStep(s, 0, 2);
    OneStep(Step(s, 0), 0, 1);
  }

  // No interleaving has more than size tickets outstanding, exactly when size is at least 2.
  lemma BoundedIff<T(!new)>(size: nat, x: T)
    requires size > 0
    ensures (forall threads: nat, moves: seq<Move<T>> ::
               var s := After(size, threads, moves); s.tail <= s.head <= s.tail + size)
      <==> size >= 2
  {
    if size >= 2 {
      forall threads: nat, moves: seq<Move<T>>
        ensures var s := After(size, threads, moves); s.tail <= s.head <= s.tail + size
      {
        Bounded(size, threads, moves);
      }
    } else {
      SizeOneLoses(x, x);
      var s := After(1, 1, TwoPushes(x, x));
      assert s.head > s.tail + 1;
    }
  }
}
