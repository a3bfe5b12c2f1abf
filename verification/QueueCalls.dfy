// What a call on the bounded queue does from its beginning to its end: it keeps its argument, it ends
// with the one answer that is justified, and it ends at all when it is left alone.
module QueueCalls {
  import opened Options
  import opened AtomicQueue
  import opened QueueTheorems

  // A queue of positive size starts with nothing in it, both tickets 0, and every slot free for the ticket of
  // its own number.
  lemma CreateIs<T>(size: int, threads: nat)
    ensures Create<T>(size, threads).None? <==> size <= 0
    ensures size > 0 ==> var s := Create<T>(size, threads).value;
      && s.size == |s.slots| == size && s.head == s.tail == 0 && s.log == [] && s.claims == [] && s.takers == []
      && s.published == s.released == {} && |s.threads| == threads && Quiet(s)
      && forall i :: 0 <= i < size ==> s.slots[i] == Slot(None, i)
  {
  }

  // The thread is inside a push of d, or inside a pop.
  predicate InPush<T(==)>(t: Thread<T>, d: T) {
    (t.LoadHead? || t.ReadForPush? || t.CasHead? || t.StoreData? || t.Publish?) && t.d == d
  }

  predicate InPop<T>(t: Thread<T>) {
    t.LoadTail? || t.ReadForPop? || t.CasTail? || t.CopyData? || t.Release?
  }

  // ---------- one step of a call ----------

  // A step of a push leaves it a push of the same value, or ends it: with a ticket of its own that it
  // now publishes, or because the ticket a lap before has not been released.
  lemma PushStep<T>(s: State<T>, p: nat, d: T)
    requires Inv(s) && p < |s.threads| && InPush(s.threads[p], d)
    ensures var s' := Step(s, p);
      && |s'.threads| == |s.threads| && (forall q :: 0 <= q < |s.threads| && q != p ==> s'.threads[q] == s.threads[q])
      && if InPush(s'.threads[p], d) then s'.log == s.log && s'.published == s.published && s'.released == s.released
         else
           && s'.threads[p] == Idle && |s'.log| == |s.log| + 1 && s'.log[..|s.log|] == s.log
           && match s'.log[|s.log|]
              case Pushed(h, x) =>
                x == d && 0 <= h < |s.claims| && s.claims[h] == Claim(d, p) && h !in s.published
                && s'.published == s.published + {h} && s'.released == s.released
              case Full(h) =>
                s.size <= h <= s.head && h - s.size !in s.released
                && s' == s.(threads := s.threads[p := Idle], log := s.log + [Full(h)])
              case _ => false
  {
    assert ThreadOk(s, p);
    if s.threads[p].ReadForPush? {
      PushFailsIff(s, p);
    } else if s.threads[p].Publish? {
      AtTicket(s, s.threads[p].head);
    }
  }

  // A step of a pop leaves it a pop, or ends it: with the value of a ticket of its own that it now
  // releases, or because its ticket has not been published.
  lemma PopStep<T>(s: State<T>, p: nat)
    requires Inv(s) && p < |s.threads| && InPop(s.threads[p])
    ensures var s' := Step(s, p);
      && |s'.threads| == |s.threads| && (forall q :: 0 <= q < |s.threads| && q != p ==> s'.threads[q] == s.threads[q])
      && if InPop(s'.threads[p]) then s'.log == s.log && s'.published == s.published && s'.released == s.released
         else
           && s'.threads[p] == Idle && |s'.log| == |s.log| + 1 && s'.log[..|s.log|] == s.log
           && match s'.log[|s.log|]
              case Popped(t, v) =>
                0 <= t < |s.takers| && s.takers[t] == p && t < |s.claims| && v == Some(s.claims[t].d)
                && t in s.published && t !in s.released
                && s'.released == s.released + {t} && s'.published == s.published
              case Empty(t) =>
                0 <= t <= s.tail && t !in s.published
                && s' == s.(threads := s.threads[p := Idle], log := s.log + [Empty(t)])
              case _ => false
  {
    assert ThreadOk(s, p);
    if s.threads[p].ReadForPop? {
      PopFailsIff(s, p);
    } else if s.threads[p].Release? {
      AtTicket(s, s.threads[p].tail);
    }
  }

  // A call with a null argument ends at once and changes nothing; any other begins with its argument.
  lemma BeginStep<T>(s: State<T>, p: nat, c: Call<T>)
    requires Shape(s) && p < |s.threads| && s.threads[p].Idle?
    ensures var s' := Next(s, Begin(p, c));
      match c
      case Push(Some(d)) => InPush(s'.threads[p], d) && s' == s.(threads := s.threads[p := s'.threads[p]])
      case Pop(true) => InPop(s'.threads[p]) && s' == s.(threads := s.threads[p := s'.threads[p]])
      case _ => s' == s.(log := s.log + [NullArgument])
  {
    assert s.threads[p := Idle] == s.threads;
  }

  // ---------- whole runs ----------

  // Why a call may return e as the next move of thread p in state s.
  ghost predicate Justified<T>(s: State<T>, m: Move<T>, e: Event<T>)
    requires Shape(s)
  {
    && m.p < |s.threads|
    && match e
       case Pushed(h, d) => m.Go? && InPush(s.threads[m.p], d) && 0 <= h < |s.claims| && s.claims[h] == Claim(d, m.p)
                            && h !in s.published
       case Popped(t, v) => m.Go? && InPop(s.threads[m.p]) && 0 <= t < |s.takers| && s.takers[t] == m.p
                            && t in s.published && t !in s.released
       case Full(h) => m.Go? && !s.threads[m.p].Idle? && !InPop(s.threads[m.p]) && h >= s.size && h - s.size !in s.released
       case Empty(t) => m.Go? && InPop(s.threads[m.p]) && t >= 0 && t !in s.published
       case NullArgument => s.threads[m.p].Idle? && (m == Begin(m.p, Push(None)) || m == Begin(m.p, Pop(false)))
  }

  // A move appends at most one event, and a justified one.
  lemma NextJustified<T>(s: State<T>, m: Move<T>)
    requires Inv(s)
    ensures var s' := Next(s, m);
      s'.log == s.log || (|s'.log| == |s.log| + 1 && s'.log[..|s.log|] == s.log && Justified(s, m, s'.log[|s.log|]))
  {
    if m.p < |s.threads| {
      var t := s.threads[m.p];
      if m.Begin? {
        if t.Idle? {
          BeginStep(s, m.p, m.c);
        }
      } else if InPop(t) {
        PopStep(s, m.p);
      } else if !t.Idle? {
        PushStep(s, m.p, t.d);
      }
    }
  }

  // The run has a move at which event j was returned, and in the state before it that was justified.
  lemma {:induction false} EventJustified<T>(s: State<T>, moves: seq<Move<T>>, j: nat) returns (n: nat)
    requires Inv(s) && |s.log| <= j < |Run(s, moves).log|
    ensures n < |moves|
    ensures var before := Run(s, moves[..n]);
      && |before.log| == j && Run(s, moves[..n + 1]).log == before.log + [Run(s, moves).log[j]]
      && Justified(before, moves[n], Run(s, moves).log[j])
    decreases |moves|
  {
    NextKeeps(s, moves[0]);
    NextJustified(s, moves[0]);
    var s1 := Next(s, moves[0]);
    if |s1.log| <= j {
      var k := EventJustified(s1, moves[1..], j);
      n := k + 1;
      PrefixRun(s, moves, k);
      PrefixRun(s, moves, k + 1);
    } else {
      n := 0;
      HistoryGrows(s1, moves[1..]);
      PrefixRun(s, moves, 0);
      assert moves[..0] == [];
    }
  }

  lemma PrefixRun<T>(s: State<T>, moves: seq<Move<T>>, k: nat)
    requires Shape(s) && k < |moves|
    ensures Shape(Next(s, moves[0])) && Run(s, moves[..k + 1]) == Run(Next(s, moves[0]), moves[1..][..k])
  {
    NextShape(s, moves[0]);
    assert moves[..k + 1][1..] == moves[1..][..k];
  }

  // In every interleaving, every answer was justified when it was given.
  lemma AnswersJustified<T>(size: nat, threads: nat, moves: seq<Move<T>>, j: nat) returns (n: nat)
    requires size >= 2 && j < |After(size, threads, moves).log|
    ensures n < |moves|
    ensures var before := After(size, threads, moves[..n]);
      && |before.log| == j
      && After(size, threads, moves[..n + 1]).log == before.log + [After(size, threads, moves).log[j]]
      && Justified(before, moves[n], After(size, threads, moves).log[j])
  {
    CreateInv<T>(size, threads);
    n := EventJustified(Create(size, threads).value, moves, j);
  }

  // The call that thread p is in after these moves, and the move at which it began.
  ghost predicate Began<T>(size: nat, threads: nat, moves: seq<Move<T>>, p: nat, k: nat, c: Call<T>)
    requires size > 0
  {
    && k < |moves| && p < threads && moves[k] == Begin(p, c) && After(size, threads, moves[..k]).threads[p].Idle?
    && forall n :: k < n <= |moves| ==> !After(size, threads, moves[..n]).threads[p].Idle?
  }

  // A thread inside a push of d began it with d as its argument, and a thread inside a pop began one.
  lemma {:induction false} CallBegan<T>(size: nat, threads: nat, moves: seq<Move<T>>, p: nat) returns (k: nat)
    requires size >= 2 && p < threads && !After(size, threads, moves).threads[p].Idle?
    ensures var t := After(size, threads, moves).threads[p];
      if InPop(t) then Began(size, threads, moves, p, k, Pop(true)) else Began(size, threads, moves, p, k, Push(Some(t.d)))
    decreases |moves|
  {
    k := 0;
    if moves == [] {
      assert false;
    } else {
      var n := |moves| - 1;
      var s := After(size, threads, moves[..n]);
      AfterInv(size, threads, moves[..n]);
      LastMove(size, threads, moves);
      if s.threads[p].Idle? {
        k := n;
        assert moves[..|moves|] == moves;
        BeginsHere(s, moves[n], p);
      } else {
        k := CallBegan(size, threads, moves[..n], p);
        SameCall(s, moves[n], p);
        LongerBegan(size, threads, moves, p, k, if InPop(s.threads[p]) then Pop(true) else Push(Some(s.threads[p].d)));
      }
    }
  }

  lemma LastMove<T>(size: nat, threads: nat, moves: seq<Move<T>>)
    requires size > 0 && moves != []
    ensures var n := |moves| - 1; After(size, threads, moves) == Next(After(size, threads, moves[..n]), moves[n])
  {
    var n := |moves| - 1;
    var s := Create<T>(size, threads).value;
    assert moves == moves[..n] + [moves[n]];
    RunConcat(s, moves[..n], [moves[n]]);
    NextShape(Run(s, moves[..n]), moves[n]);
    assert [moves[n]][1..] == [];
  }

  lemma BeginsHere<T>(s: State<T>, m: Move<T>, p: nat)
    requires Inv(s) && p < |s.threads| && s.threads[p].Idle? && |Next(s, m).threads| == |s.threads|
    requires !Next(s, m).threads[p].Idle?
    ensures var t := Next(s, m).threads[p]; m == Begin(p, if InPop(t) then Pop(true) else Push(Some(t.d)))
  {
    if m.p != p {
      OthersStay(s, m, p);
    } else if m.Begin? {
      BeginStep(s, p, m.c);
    }
  }

  // A move of another thread does not touch thread p.
  lemma OthersStay<T>(s: State<T>, m: Move<T>, p: nat)
    requires Inv(s) && p < |s.threads| && m.p != p
    ensures |Next(s, m).threads| == |s.threads| && Next(s, m).threads[p] == s.threads[p]
  {
  }

  // A thread inside a call stays in that call until it returns.
  lemma SameCall<T>(s: State<T>, m: Move<T>, p: nat)
    requires Inv(s) && p < |s.threads| && !s.threads[p].Idle?
    ensures |Next(s, m).threads| == |s.threads|
    ensures var t, t' := s.threads[p], Next(s, m).threads[p];
      t'.Idle? || (if InPop(t) then InPop(t') else InPush(t', t.d))
  {
    if m.p != p {
      OthersStay(s, m, p);
    } else if m.Go? {
      if InPop(s.threads[p]) {
        PopStep(s, p);
      } else {
        PushStep(s, p, s.threads[p].d);
      }
    }
  }

  lemma LongerBegan<T>(size: nat, threads: nat, moves: seq<Move<T>>, p: nat, k: nat, c: Call<T>)
    requires size > 0 && moves != [] && Began(size, threads, moves[..|moves| - 1], p, k, c)
    requires !After(size, threads, moves).threads[p].Idle?
    ensures Began(size, threads, moves, p, k, c)
  {
    var n := |moves| - 1;
    assert moves[..n][..k] == moves[..k];
    forall i | k < i <= |moves|
      ensures !After(size, threads, moves[..i]).threads[p].Idle?
    {
      if i <= n {
        assert moves[..n][..i] == moves[..i];
      } else {
        assert moves[..i] == moves;
      }
    }
  }

  // ---------- a call that is left alone ends ----------

  // How many steps a call needs at most when no other thread moves.
  function StepsLeft<T>(s: State<T>, p: nat): nat
    requires p < |s.threads|
  {
    match s.threads[p]
    case Idle => 0
    case LoadHead(_) => 5
    case ReadForPush(_, h) => if h == s.head then 4 else 6
    case CasHead(_, h) => if h == s.head then 3 else 5
    case StoreData(_, _) => 2
    case Publish(_, _) => 1
    case LoadTail => 5
    case ReadForPop(t) => if t == s.tail then 4 else 6
    case CasTail(t) => if t == s.tail then 3 else 5
    case CopyData(_) => 2
    case Release(_, _) => 1
  }

  lemma StepsDecrease<T>(s: State<T>, p: nat)
    requires Inv(s) && p < |s.threads| && !s.threads[p].Idle?
    ensures |Step(s, p).threads| == |s.threads| && StepsLeft(Step(s, p), p) < StepsLeft(s, p)
  {
    RetryMeansProgress(s, p);
  }

  // From any point of its program, whatever the others have done so far, a call that runs alone returns
  // within six steps, with exactly one answer.
  lemma {:induction false} Finishes<T>(s: State<T>, p: nat, n: nat)
    requires Inv(s) && p < |s.threads| && !s.threads[p].Idle? && StepsLeft(s, p) <= n
    ensures var r := Steps(s, p, n);
      r.threads[p] == Idle && |r.log| == |s.log| + 1 && r.log[..|s.log|] == s.log
    decreases n
  {
    hide StepsLeft, SlotsOk, ThreadsOk, OwnersOk, HistoryOk, LogOk, Step;
    StepKeeps(s, p);
    StepsDecrease(s, p);
    OneStep(s, p, n);
    if InPop(s.threads[p]) {
      PopStep(s, p);
    } else {
      PushStep(s, p, s.threads[p].d);
    }
    if Step(s, p).threads[p].Idle? {
      IdleStays(Step(s, p), p, n - 1);
    } else {
      Finishes(Step(s, p), p, n - 1);
    }
  }

  lemma {:induction false} IdleStays<T>(s: State<T>, p: nat, n: nat)
    requires Shape(s) && p < |s.threads| && s.threads[p].Idle?
    ensures Steps(s, p, n) == s
    decreases n
  {
    if n > 0 {
      OneStep(s, p, n);
      IdleStays(s, p, n - 1);
    }
  }

  lemma FinishesAlone<T>(s: State<T>, p: nat)
    requires Inv(s) && p < |s.threads| && !s.threads[p].Idle?
    ensures var r := Steps(s, p, 6);
      r.threads[p] == Idle && |r.log| == |s.log| + 1 && r.log[..|s.log|] == s.log
  {
    Finishes(s, p, 6);
  }
}
