// The timers of event.c: a heap of events ordered by time, each known to the slot that its owner
// gave. The list is proved to be a map from slots to timers, from which the earliest is run first.
module EventList {
  import opened Options
  import opened Compare
  import opened HeapSpec
  import opened Heap

  const USEC: int := 1000000

  // struct timeval
  datatype Time = Time(sec: int, usec: int)

  // fr_event_list_time_cmp
  function TimeCmp(a: Time, b: Time): int {
    if a.sec < b.sec then -1
    else if a.sec > b.sec then 1
    else if a.usec < b.usec then -1
    else if a.usec > b.usec then 1
    else 0
  }

  // A time in microseconds.
  function Micros(t: Time): int {
    t.sec * 1000000 + t.usec
  }

  // For times whose microseconds are less than a second, the comparison is that of the numbers.
  lemma TimeCmpIs(a: Time, b: Time)
    requires 0 <= a.usec < 1000000 && 0 <= b.usec < 1000000
    ensures TimeCmp(a, b) < 0 <==> Micros(a) < Micros(b)
    ensures TimeCmp(a, b) == 0 <==> a == b
    ensures TimeCmp(a, b) > 0 <==> Micros(a) > Micros(b)
  {
  }

  ghost predicate ComparesTimes(cmp: Cmp<Time>) {
    forall a, b :: cmp(a, b) == TimeCmp(a, b)
  }

  lemma TimesGood(cmp: Cmp<Time>)
    requires ComparesTimes(cmp)
    ensures GoodCmp(cmp)
  {
    forall a, b, c
      ensures Triple(cmp, a, b, c)
    {
    }
  }

  // Where the owner of an event keeps the pointer to it.
  class Slot<C> {
    var ev: Node?<Time, Info<C>>

    constructor ()
      ensures ev == null
    {
      ev := null;
    }
  }

  // The callback with its context, and the owner's slot; the time is the node's key.
  datatype Info<C> = Info(callback: C, parent: Slot<C>)

  // A timer, as the owner of the slot knows it.
  datatype Timer<+C> = Timer(time: Time, callback: C)

  class EventList<C> {
    const times: Heap<Time, Info<C>>
    ghost var pending: map<Slot<C>, Timer<C>>

    // An event in the heap is a pending timer, and *(ev->parent) == ev.
    ghost predicate EventOk(n: Node<Time, Info<C>>)
      requires n in times.nodes
      reads this, times, times.nodes, pending.Keys
    {
      n.info.parent in pending && pending[n.info.parent] == Timer(n.key, n.info.callback) && n.info.parent.ev == n
    }

    // A slot with a pending timer points to its event.
    ghost predicate SlotOk(s: Slot<C>)
      requires s in pending
      reads this, times, times.nodes, pending.Keys
    {
      s.ev != null && s.ev in times.nodes && s.ev.info.parent == s
    }

    ghost predicate Linked()
      reads this, times, times.nodes, pending.Keys
    {
      && (forall n {:trigger EventOk(n)} :: n in times.nodes ==> EventOk(n))
      && (forall s {:trigger SlotOk(s)} :: s in pending ==> SlotOk(s))
    }

    ghost predicate Valid()
      reads this, times, times.p, times.nodes, pending.Keys
    {
      && times.Valid() && times.indexed && ComparesTimes(times.cmp) && Ordered(times.cmp, times.model) && Linked()
    }

    // fr_event_list_create
    constructor ()
      ensures Valid() && pending == map[] && fresh(times) && fresh(times.p)
    {
      var heap := new Heap<Time, Info<C>>(TimeCmp, true);
      times := heap;
      pending := map[];
    }

    // Taking the event of a slot out of the heap.
    method Remove(s: Slot<C>, ev: Node<Time, Info<C>>)
      requires Valid() && s in pending && s.ev == ev
      modifies this`pending, times, times.p, times.nodes`heap
      ensures times.nodes == old(times.nodes) - {ev} && pending == old(pending) - {s} && Valid()
      ensures times.p == old(times.p) && ev.heap == -1
    {
      TimesGood(times.cmp);
      assert SlotOk(s);
      var ok; ghost var i;
      ok, i := times.Extract(ev);
      ExtractOrders(times.cmp, old(times.model), i);
      pending := pending - {s};
      forall n | n in times.nodes
        ensures EventOk(n)
      {
        assert old(EventOk(n));
      }
      forall q | q in pending
        ensures SlotOk(q)
      {
        assert old(SlotOk(q));
      }
    }

    // Putting an event that has been filled in into the heap.
    method Put(ev: Node<Time, Info<C>>)
      requires Valid() && ev !in times.nodes && ev.info.parent.ev == ev && ev.info.parent !in pending
      modifies this`pending, times, times.p, times.nodes`heap, ev`heap
      ensures Valid() && pending == old(pending)[ev.info.parent := Timer(ev.key, ev.info.callback)]
      ensures times.nodes == old(times.nodes) + {ev} && (times.p == old(times.p) || fresh(times.p))
    {
      TimesGood(times.cmp);
      InsertOrders(times.cmp, times.model, Item(ev, ev.key));
      times.Insert(ev);
      pending := pending[ev.info.parent := Timer(ev.key, ev.info.callback)];
      forall n | n in times.nodes
        ensures EventOk(n)
      {
        assert n != ev ==> old(EventOk(n));
      }
      forall q | q in pending
        ensures SlotOk(q)
      {
        assert q != ev.info.parent ==> old(SlotOk(q));
      }
    }

    // fr_event_insert
    method Insert(callback: C, when: Time, parent: Slot<C>) returns (ok: bool)
      requires Valid() && (parent in pending <==> parent.ev != null)
      modifies this`pending, times, times.p, times.nodes, parent
      ensures Valid() && ok == (when.usec < USEC)
      ensures pending == if ok then old(pending)[parent := Timer(when, callback)] else old(pending)
      ensures !ok ==> parent.ev == old(parent.ev)
      ensures ok ==> parent.ev != null && (old(parent.ev) != null ==> parent.ev == old(parent.ev))
    {
      if when.usec >= USEC { return false; }
      if parent.ev != null {
        assert SlotOk(parent);
        Reuse(callback, when, parent);
      } else {
        Allocate(callback, when, parent);
      }
      return true;
    }

    // An event that the slot already has is taken out and filled in again.
    method Reuse(callback: C, when: Time, parent: Slot<C>)
      requires Valid() && parent in pending && parent.ev in times.nodes
      modifies this`pending, times, times.p, times.nodes
      ensures Valid() && pending == old(pending)[parent := Timer(when, callback)] && parent.ev == old(parent.ev)
    {
      var ev: Node<Time, Info<C>> := parent.ev;
      Remove(parent, ev);
      SetEvent(ev, when, Info(callback, parent));
      Put(ev);
    }

    method Allocate(callback: C, when: Time, parent: Slot<C>)
      requires Valid() && parent !in pending
      modifies this`pending, times, times.p, times.nodes`heap, parent
      ensures Valid() && pending == old(pending)[parent := Timer(when, callback)] && parent.ev != null
    {
      var ev := new Node<Time, Info<C>>(when, Info(callback, parent));
      SetSlot(parent, ev);
      Put(ev);
    }

    method SetSlot(parent: Slot<C>, ev: Node?<Time, Info<C>>)
      requires Valid() && parent !in pending
      modifies parent
      ensures Valid() && parent.ev == ev
    {
      parent.ev := ev;
      forall n | n in times.nodes
        ensures EventOk(n)
      {
        assert old(EventOk(n));
      }
      forall q | q in pending
        ensures SlotOk(q)
      {
        assert old(SlotOk(q));
      }
    }

    // The fields of an event that is not in the heap.
    method SetEvent(ev: Node<Time, Info<C>>, when: Time, info: Info<C>)
      requires Valid() && ev !in times.nodes
      modifies ev
      ensures Valid() && ev.key == when && ev.info == info
    {
      ev.key, ev.info, ev.heap := when, info, 0;
      forall n | n in times.nodes
        ensures EventOk(n)
      {
        assert old(EventOk(n));
      }
      forall q | q in pending
        ensures SlotOk(q)
      {
        assert old(SlotOk(q));
      }
    }

    // fr_event_delete: the event that parent points to goes, and its owner's slot is cleared too.
    method Delete(parent: Slot<C>) returns (ok: bool)
      requires Valid() && (parent.ev != null ==> parent.ev in times.nodes)
      modifies this`pending, times, times.p, times.nodes`heap, parent, pending.Keys
      ensures Valid() && ok == (old(parent.ev) != null)
      ensures pending == if ok then old(pending) - {old(parent.ev.info.parent)} else old(pending)
      ensures ok ==> parent.ev == null && old(parent.ev.info.parent).ev == null
      ensures times.p == old(times.p) && times.nodes <= old(times.nodes)
      ensures forall s :: s in pending ==> s.ev == old(s.ev)
    {
      if parent.ev == null { return false; }
      var ev: Node<Time, Info<C>> := parent.ev;
      var owner := ev.info.parent;
      assert EventOk(ev);
      assert parent in pending ==> SlotOk(parent);
      Remove(owner, ev);
      SetSlot(owner, null);
      SetSlot(parent, null);
      return true;
    }

    // The pending timer that fr_heap_peek finds is an earliest one.
    lemma EarliestFirst()
      requires Valid() && times.model != []
      ensures var n := times.model[0].node; n in times.nodes && n.info.parent in pending
      ensures forall s :: s in pending ==> TimeCmp(times.model[0].node.key, pending[s].time) <= 0
    {
      TimesGood(times.cmp);
      assert EventOk(times.model[0].node);
      forall s | s in pending
        ensures TimeCmp(times.model[0].node.key, pending[s].time) <= 0
      {
        assert SlotOk(s) && EventOk(s.ev);
        var i :| 0 <= i < |times.model| && times.model[i].node == s.ev;
        FirstIsLeast(times.cmp, times.model, i);
      }
    }

    // fr_event_run: `when` is the time now on the way in, and what to wait for on the way out. The
    // callback that is called is returned.
    method Run(when: Time) returns (ran: Option<C>, next: Time, ghost s: Option<Slot<C>>)
      requires Valid()
      modifies this`pending, times, times.p, times.nodes`heap, pending.Keys
      ensures Valid() && times.p == old(times.p) && times.nodes <= old(times.nodes)
      ensures s.None? <==> old(pending) == map[]
      ensures s.None? ==> ran == None && next == Time(0, 0)
      ensures s.Some? ==> Earliest(old(pending), s.value)
      ensures s.Some? && TimeCmp(old(pending)[s.value].time, when) > 0 ==> ran == None && next == old(pending)[s.value].time
      ensures s.Some? && TimeCmp(old(pending)[s.value].time, when) <= 0 ==>
        ran == Some(old(pending)[s.value].callback) && next == when && s.value.ev == null
      ensures pending == if ran.Some? then old(pending) - {s.value} else old(pending)
      ensures forall q :: q in pending ==> q.ev == old(q.ev)
    {
      if times.numElements == 0 {
        NonePending();
        return None, Time(0, 0), None;
      }
      EarliestFirst();
      var ev: Node<Time, Info<C>> := times.Peek();
      assert EventOk(ev);
      var owner := ev.info.parent;
      if ev.key.sec > when.sec || (ev.key.sec == when.sec && ev.key.usec > when.usec) {
        return None, ev.key, Some(owner);
      }
      var callback := ev.info.callback;
      var ok := Delete(owner);
      return Some(callback), when, Some(owner);
    }

    // Running timers as fr_event_loop does, with the same time until none is due: every due timer
    // runs once, in order of time, and what is left is what to wait for.
    method RunDue(now: Time) returns (ran: seq<C>, next: Time, ghost due: seq<Slot<C>>)
      requires Valid()
      modifies this`pending, times, times.p, times.nodes`heap, pending.Keys
      ensures Valid() && RunInOrder(old(pending), due, ran)
      ensures forall s :: s in due <==> s in old(pending) && TimeCmp(old(pending)[s].time, now) <= 0
      ensures pending == Without(old(pending), due)
      ensures if pending == map[] then next == Time(0, 0)
              else exists s :: Earliest(pending, s) && next == pending[s].time && TimeCmp(next, now) > 0
    {
      ran, due := [], [];
      ghost var all := pending;
      WithoutNone(all);
      while true
        invariant Valid() && pending == Without(all, due) && RanSoFar(all, due, ran, now)
        invariant times.p == old(times.p) && times.nodes <= old(times.nodes)
        decreases |pending|
      {
        ghost var before := pending;
        var one; ghost var s;
        one, next, s := Run(now);
        if one.None? {
          RanAll(all, due, ran, now);
          break;
        }
        RanOne(all, due, ran, now, s.value);
        ran, due := ran + [one.value], due + [s.value];
      }
    }

    lemma InHeap()
      requires Valid()
      ensures forall s :: s in pending ==> s.ev != null && s.ev in times.nodes
    {
      forall s | s in pending
        ensures s.ev != null && s.ev in times.nodes
      {
        assert SlotOk(s);
      }
    }

    lemma NonePending()
      requires Valid() && times.model == []
      ensures pending == map[]
    {
      InHeap();
      assert times.nodes == {};
      assert forall s :: s !in pending;
    }
  }

  // Every slot runs once, with its own callback, and not before an earlier one.
  ghost predicate RunInOrder<C>(all: map<Slot<C>, Timer<C>>, due: seq<Slot<C>>, ran: seq<C>) {
    && |ran| == |due|
    && (forall i :: 0 <= i < |due| ==> due[i] in all && ran[i] == all[due[i]].callback)
    && (forall i, j :: 0 <= i < j < |due| ==> due[i] != due[j] && TimeCmp(all[due[i]].time, all[due[j]].time) <= 0)
  }

  ghost function Without<C>(all: map<Slot<C>, Timer<C>>, gone: seq<Slot<C>>): map<Slot<C>, Timer<C>> {
    map s | s in all && s !in gone :: all[s]
  }

  lemma WithoutNone<C>(all: map<Slot<C>, Timer<C>>)
    ensures Without(all, []) == all
  {
  }

  lemma WithoutOne<C>(all: map<Slot<C>, Timer<C>>, gone: seq<Slot<C>>, s: Slot<C>)
    requires s in Without(all, gone)
    ensures Without(all, gone + [s]) == Without(all, gone) - {s}
    ensures |Without(all, gone + [s])| < |Without(all, gone)|
  {
    var a, b := Without(all, gone), Without(all, gone + [s]);
    assert b == a - {s};
    assert b.Keys == a.Keys - {s};
  }

  // The timers in due have run, all of them due by now and none after one that is left.
  ghost predicate RanSoFar<C>(all: map<Slot<C>, Timer<C>>, due: seq<Slot<C>>, ran: seq<C>, now: Time) {
    && RunInOrder(all, due, ran)
    && (forall i :: 0 <= i < |due| ==> TimeCmp(all[due[i]].time, now) <= 0)
    && (forall i, q :: 0 <= i < |due| && q in Without(all, due) ==> TimeCmp(all[due[i]].time, all[q].time) <= 0)
  }

  lemma RanOne<C>(all: map<Slot<C>, Timer<C>>, due: seq<Slot<C>>, ran: seq<C>, now: Time, s: Slot<C>)
    requires RanSoFar(all, due, ran, now) && Earliest(Without(all, due), s) && TimeCmp(all[s].time, now) <= 0
    ensures RanSoFar(all, due + [s], ran + [all[s].callback], now)
    ensures Without(all, due + [s]) == Without(all, due) - {s}
    ensures |Without(all, due + [s])| < |Without(all, due)|
  {
    WithoutOne(all, due, s);
  }

  lemma RanAll<C>(all: map<Slot<C>, Timer<C>>, due: seq<Slot<C>>, ran: seq<C>, now: Time)
    requires RanSoFar(all, due, ran, now)
    requires forall q :: q in Without(all, due) ==> TimeCmp(all[q].time, now) > 0
    ensures forall s :: s in due <==> s in all && TimeCmp(all[s].time, now) <= 0
  {
    forall s
      ensures s in due <==> s in all && TimeCmp(all[s].time, now) <= 0
    {
      if s in due {
        var i :| 0 <= i < |due| && due[i] == s;
      } else if s in all {
        assert s in Without(all, due);
      }
    }
  }

  // The time to wait for an event, as fr_event_loop subtracts it: nothing when the event is due.
  method WaitTime(now: Time, at: Time) returns (when: Time)
    ensures TimeCmp(now, at) < 0 ==> Micros(when) == Micros(at) - Micros(now)
    ensures TimeCmp(now, at) >= 0 ==> when == Time(0, 0)
    ensures 0 <= now.usec < USEC && 0 <= at.usec < USEC ==> when.sec >= 0 && 0 <= when.usec < USEC
    ensures 0 <= now.usec < USEC && 0 <= at.usec < USEC ==> (when == Time(0, 0) <==> TimeCmp(now, at) >= 0)
  {
    if TimeCmp(now, at) < 0 {
      when := at;
      when := when.(sec := when.sec - now.sec);
      if when.sec > 0 {
        when := Time(when.sec - 1, when.usec + USEC);
      } else {
        when := when.(sec := 0);
      }
      when := when.(usec := when.usec - now.usec);
      if when.usec >= USEC {
        when := Time(when.sec + 1, when.usec - USEC);
      }
    } else {
      when := Time(0, 0);
    }
  }

  // The timer of s is pending and none is before it.
  ghost predicate Earliest<C>(pending: map<Slot<C>, Timer<C>>, s: Slot<C>) {
    s in pending && forall q :: q in pending ==> TimeCmp(pending[s].time, pending[q].time) <= 0
  }
}
