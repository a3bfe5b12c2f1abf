// The hash table as a finite map: which item a lookup returns, exactly when an inserted item can
// be found again, and whole runs of operations against the map they implement.
module HashMap {
  import opened Compare
  import opened SplitOrder
  import opened Options
  import opened SplitTable
  import opened HashSpec

  // The comparison function is a total preorder, if there is one.
  ghost predicate GoodOps<D(!new)>(ops: Ops<D>) {
    ops.cmp.Some? ==> GoodCmp(ops.cmp.value)
  }

  // The order in which list_find expects the nodes: by reversed hash, and larger items first
  // among equal hashes.
  ghost predicate Ordered<D>(ops: Ops<D>, c: seq<Item<D>>) {
    forall i, j :: 0 <= i < j < |c| && c[i].key == c[j].key ==> ops.Cmp(c[i].data, c[j].data) > 0
  }

  ghost predicate AllOrdered<D>(ops: Ops<D>, t: Table<D>) {
    forall b :: 0 <= b < |t.buckets| ==> Ordered(ops, Chain(t.buckets, b))
  }

  // d is larger than a stored item with the same hash.
  ghost predicate Collides<D>(ops: Ops<D>, c: seq<Item<D>>, d: D) {
    exists k :: 0 <= k < |c| && c[k].key == ops.hash(d) && ops.Cmp(d, c[k].data) > 0
  }

  ghost predicate SameItem<D>(ops: Ops<D>, x: Item<D>, d: D) {
    x.key == ops.hash(d) && ops.Cmp(d, x.data) == 0
  }

  // ---------- one chain ----------

  lemma CmpTriple<D(!new)>(ops: Ops<D>, x: D, y: D, z: D)
    requires GoodOps(ops)
    ensures ops.Cmp(x, y) < 0 <==> ops.Cmp(y, x) > 0
    ensures ops.Cmp(x, y) <= 0 && ops.Cmp(y, z) <= 0 ==> ops.Cmp(x, z) <= 0
  {
    if ops.cmp.Some? {
      assert Triple(ops.cmp.value, x, y, z);
    }
  }

  lemma CmpSwap<D(!new)>(ops: Ops<D>, x: D, y: D)
    requires GoodOps(ops)
    ensures ops.Cmp(x, y) > 0 <==> ops.Cmp(y, x) < 0
    ensures ops.Cmp(x, y) == 0 <==> ops.Cmp(y, x) == 0
    ensures ops.Cmp(x, x) == 0
  {
    CmpTriple(ops, x, y, x);
    CmpTriple(ops, y, x, y);
    CmpTriple(ops, x, x, x);
  }

  lemma CmpTrans<D(!new)>(ops: Ops<D>, x: D, y: D, z: D)
    requires GoodOps(ops) && ops.Cmp(x, y) >= 0 && ops.Cmp(y, z) >= 0
    ensures ops.Cmp(x, z) >= 0
    ensures ops.Cmp(x, y) > 0 || ops.Cmp(y, z) > 0 ==> ops.Cmp(x, z) > 0
  {
    CmpSwap(ops, x, y);
    CmpSwap(ops, y, z);
    CmpSwap(ops, x, z);
    CmpTriple(ops, z, y, x);
    CmpTriple(ops, y, x, z);
    CmpTriple(ops, x, z, y);
  }

  // An item equal to the smaller of two items is smaller than the larger one.
  lemma CmpBetween<D(!new)>(ops: Ops<D>, d: D, x: D, y: D)
    requires GoodOps(ops) && ops.Cmp(x, y) > 0 && ops.Cmp(d, y) == 0
    ensures ops.Cmp(d, x) < 0
  {
    CmpSwap(ops, d, y);
    CmpTrans(ops, x, y, d);
    CmpSwap(ops, x, d);
  }

  lemma {:induction false} FindComplete<D(!new)>(ops: Ops<D>, c: seq<Item<D>>, d: D, i: nat, j: nat)
    requires GoodOps(ops) && Sorted(c) && Ordered(ops, c)
    requires i <= j < |c| && SameItem(ops, c[j], d)
    ensures ListFind(ops, c, d, i) == Some(j)
    decreases j - i
  {
    if i < j {
      if Position(c[i].key) == Position(ops.hash(d)) {
        PositionInjective(c[i].key, ops.hash(d));
        CmpBetween(ops, d, c[i].data, c[j].data);
      }
      FindComplete(ops, c, d, i + 1, j);
    }
  }

  lemma {:induction false} InsertMeetsSame<D(!new)>(ops: Ops<D>, c: seq<Item<D>>, d: D, i: nat, j: nat)
    requires GoodOps(ops) && Sorted(c) && Ordered(ops, c)
    requires i <= j < |c| && SameItem(ops, c[j], d)
    ensures ListInsertAt(ops, c, d, i) == None
    decreases j - i
  {
    if i < j {
      if Position(c[i].key) == Position(ops.hash(d)) {
        PositionInjective(c[i].key, ops.hash(d));
        CmpBetween(ops, d, c[i].data, c[j].data);
      }
      InsertMeetsSame(ops, c, d, i + 1, j);
    }
  }

  lemma {:induction false} InsertMeetsNone<D>(ops: Ops<D>, c: seq<Item<D>>, d: D, i: nat)
    requires i <= |c| && forall j :: 0 <= j < |c| ==> !SameItem(ops, c[j], d)
    ensures ListInsertAt(ops, c, d, i).Some?
    decreases |c| - i
  {
    if i < |c| {
      if Position(c[i].key) == Position(ops.hash(d)) {
        PositionInjective(c[i].key, ops.hash(d));
        assert !SameItem(ops, c[i], d);
      }
      InsertMeetsNone(ops, c, d, i + 1);
    }
  }

  // The place list_insert chooses, when d is not larger than an item with its hash.
  lemma {:induction false} InsertOrdered<D(!new)>(ops: Ops<D>, c: seq<Item<D>>, d: D, i: nat)
    requires GoodOps(ops) && Sorted(c) && Ordered(ops, c) && i <= |c|
    requires !Collides(ops, c, d)
    requires forall j :: 0 <= j < i && c[j].key == ops.hash(d) ==> ops.Cmp(d, c[j].data) < 0
    ensures var r := ListInsertAt(ops, c, d, i);
      r.Some? ==> Ordered(ops, InsertedAt(c, r.value, ops.ItemOf(d)))
    decreases |c| - i
  {
    if i == |c| || Position(c[i].key) > Position(ops.hash(d)) {
      assert forall j :: i <= j < |c| ==> Position(c[j].key) >= Position(c[i].key);
      InsertedOrdered(ops, c, d, i);
    } else {
      if Position(c[i].key) == Position(ops.hash(d)) {
        PositionInjective(c[i].key, ops.hash(d));
      }
      if Position(c[i].key) != Position(ops.hash(d)) || ops.Cmp(d, c[i].data) < 0 {
        InsertOrdered(ops, c, d, i + 1);
      }
    }
  }

  lemma InsertedOrdered<D(!new)>(ops: Ops<D>, c: seq<Item<D>>, d: D, i: nat)
    requires GoodOps(ops) && Ordered(ops, c) && i <= |c|
    requires forall j :: 0 <= j < i && c[j].key == ops.hash(d) ==> ops.Cmp(d, c[j].data) < 0
    requires forall j :: i <= j < |c| ==> c[j].key != ops.hash(d)
    ensures Ordered(ops, InsertedAt(c, i, ops.ItemOf(d)))
  {
    var c' := InsertedAt(c, i, ops.ItemOf(d));
    forall a, b | 0 <= a < b < |c'| && c'[a].key == c'[b].key
      ensures ops.Cmp(c'[a].data, c'[b].data) > 0
    {
      assert c'[i] == ops.ItemOf(d);
      assert a < i ==> c'[a] == c[a];
      assert a > i ==> c'[a] == c[a - 1];
      assert b < i ==> c'[b] == c[b];
      assert b > i ==> c'[b] == c[b - 1];
      if b == i {
        CmpSwap(ops, d, c[a].data);
      }
    }
  }

  // A node that stops every search for d lies before all nodes equal to d.
  ghost predicate Hidden<D>(ops: Ops<D>, c: seq<Item<D>>, d: D) {
    exists k :: 0 <= k < |c| && HiddenBy(ops, c, d, k)
  }

  ghost predicate HiddenBy<D>(ops: Ops<D>, c: seq<Item<D>>, d: D, k: nat)
    requires k < |c|
  {
    && c[k].key == ops.hash(d) && ops.Cmp(d, c[k].data) > 0
    && forall j :: 0 <= j < k ==> !SameItem(ops, c[j], d)
  }

  lemma {:induction false} HiddenNotFound<D>(ops: Ops<D>, c: seq<Item<D>>, d: D, i: nat, k: nat)
    requires i <= k < |c| && HiddenBy(ops, c, d, k)
    ensures ListFind(ops, c, d, i).None?
    decreases k - i
  {
    if i < k {
      if Position(c[i].key) == Position(ops.hash(d)) {
        PositionInjective(c[i].key, ops.hash(d));
      }
      HiddenNotFound(ops, c, d, i + 1, k);
    }
  }

  lemma HiddenAfter<D>(ops: Ops<D>, c: seq<Item<D>>, d: D, i: nat)
    requires i < |c| && c[i].key == ops.hash(d) && ops.Cmp(d, c[i].data) > 0
    requires forall j :: 0 <= j < |c| ==> !SameItem(ops, c[j], d)
    ensures Hidden(ops, InsertedAt(c, i + 1, ops.ItemOf(d)), d)
  {
    var c' := InsertedAt(c, i + 1, ops.ItemOf(d));
    assert forall j :: 0 <= j <= i ==> c'[j] == c[j];
    assert HiddenBy(ops, c', d, i);
  }

  // When d is larger than an item with its hash, list_insert puts it behind that item.
  lemma {:induction false} InsertHidden<D(!new)>(ops: Ops<D>, c: seq<Item<D>>, d: D, i: nat, k: nat)
    requires Sorted(c) && i <= k < |c|
    requires c[k].key == ops.hash(d) && ops.Cmp(d, c[k].data) > 0
    requires forall j :: 0 <= j < |c| ==> !SameItem(ops, c[j], d)
    ensures var r := ListInsertAt(ops, c, d, i);
      r.Some? && Hidden(ops, InsertedAt(c, r.value, ops.ItemOf(d)), d)
    decreases k - i
  {
    assert Position(c[i].key) <= Position(c[k].key);
    if Position(c[i].key) == Position(ops.hash(d)) {
      PositionInjective(c[i].key, ops.hash(d));
      assert !SameItem(ops, c[i], d);
      if ops.Cmp(d, c[i].data) > 0 {
        HiddenAfter(ops, c, d, i);
      } else {
        InsertHidden(ops, c, d, i + 1, k);
      }
    } else {
      InsertHidden(ops, c, d, i + 1, k);
    }
  }

  // Splitting a chain keeps the order of its nodes.
  lemma {:induction false} SelectOrdered<D>(ops: Ops<D>, c: seq<Item<D>>, log: nat, b: nat)
    requires Ordered(ops, c) && Sorted(c)
    ensures Ordered(ops, Select(c, log, b))
  {
    if c != [] {
      SelectOrdered(ops, c[..|c| - 1], log, b);
      SelectSorted(c[..|c| - 1], log, b);
    }
  }

  lemma HiddenExtend<D>(ops: Ops<D>, c: seq<Item<D>>, more: seq<Item<D>>, d: D)
    requires Hidden(ops, c, d)
    ensures Hidden(ops, c + more, d)
  {
    var k :| 0 <= k < |c| && HiddenBy(ops, c, d, k);
    assert HiddenBy(ops, c + more, d, k);
  }

  lemma {:induction false} SelectHidden<D>(ops: Ops<D>, c: seq<Item<D>>, log: nat, b: nat, d: D, k: nat)
    requires k < |c| && HiddenBy(ops, c, d, k) && Sorted(c) && b == Slot(ops.hash(d), log)
    ensures Hidden(ops, Select(c, log, b), d)
  {
    var n := |c| - 1;
    var s := Select(c[..n], log, b);
    if k < n {
      SelectHidden(ops, c[..n], log, b, d, k);
      HiddenExtend(ops, s, [c[n]], d);
    } else {
      SelectSorted(c[..n], log, b);
      assert Select(c, log, b) == s + [c[n]];
      assert HiddenBy(ops, s + [c[n]], d, |s|);
    }
  }

  // ---------- the table ----------

  lemma SplitOrdered<D>(ops: Ops<D>, t: Table<D>, p: nat, e: nat)
    requires Inv(t) && AllOrdered(ops, t) && p < |t.buckets| && e < |t.buckets|
    ensures AllOrdered(ops, Fill(Split(t, p), e))
  {
    forall b | 0 <= b < |t.buckets|
      ensures Ordered(ops, Chain(Fill(Split(t, p), e).buckets, b))
    {
      assert Ordered(ops, Chain(t.buckets, b)) && Ordered(ops, Chain(t.buckets, p));
      assert Sorted(Chain(t.buckets, p));
      SelectOrdered(ops, Chain(t.buckets, p), t.log, b);
    }
  }

  lemma {:induction false} FixupOrdered<D>(ops: Ops<D>, t: Table<D>, e: nat)
    requires Inv(t) && AllOrdered(ops, t) && e < |t.buckets| && t.buckets[e].None?
    ensures AllOrdered(ops, Fixup(t, e))
    decreases e
  {
    var p := Parent(e);
    if t.buckets[p].None? {
      FixupOrdered(ops, t, p);
      FixupKeeps(t, p);
      SplitOrdered(ops, Fixup(t, p), p, e);
    } else {
      SplitOrdered(ops, t, p, e);
    }
  }

  lemma FindOrdered<D>(ops: Ops<D>, t: Table<D>, d: D)
    requires Inv(t) && AllOrdered(ops, t)
    ensures AllOrdered(ops, AfterFind(ops, t, d))
  {
    if t.buckets[SlotOf(ops, t, d)].None? {
      FixupOrdered(ops, t, SlotOf(ops, t, d));
    }
  }

  // An item with d's hash is in the chain that is searched for d.
  lemma InChain<D>(ops: Ops<D>, t: Table<D>, x: Item<D>, d: D) returns (i: nat)
    requires Valid(ops, t) && x in Contents(t.buckets) && x.key == ops.hash(d)
    ensures i < |ChainOf(ops, t, d)| && ChainOf(ops, t, d)[i] == x
  {
    FindKeeps(ops, t, d);
    var t1 := AfterFind(ops, t, d);
    PlacedCount(t1, x);
    assert x in multiset(ChainOf(ops, t, d));
    i :| 0 <= i < |ChainOf(ops, t, d)| && ChainOf(ops, t, d)[i] == x;
  }

  lemma ChainItem<D>(ops: Ops<D>, t: Table<D>, d: D, i: nat)
    requires Valid(ops, t) && i < |ChainOf(ops, t, d)|
    ensures ChainOf(ops, t, d)[i] in Contents(t.buckets)
  {
    FindKeeps(ops, t, d);
    ContentsMember(AfterFind(ops, t, d).buckets, SlotOf(ops, t, d), i);
  }

  lemma ChainGood<D>(ops: Ops<D>, t: Table<D>, d: D)
    requires Valid(ops, t) && AllOrdered(ops, t)
    ensures Sorted(ChainOf(ops, t, d)) && Ordered(ops, ChainOf(ops, t, d))
  {
    FindKeeps(ops, t, d);
    FindOrdered(ops, t, d);
  }

  // finddata returns exactly the stored item that is equal to its argument.
  lemma FoundIff<D(!new)>(ops: Ops<D>, t: Table<D>, d: D, x: D)
    requires GoodOps(ops) && Valid(ops, t) && AllOrdered(ops, t)
    ensures Found(ops, t, d) == Some(x) <==> ops.ItemOf(x) in Contents(t.buckets) && ops.Same(d, x)
  {
    ChainGood(ops, t, d);
    var c := ChainOf(ops, t, d);
    if Found(ops, t, d) == Some(x) {
      FindKeeps(ops, t, d);
      FoundSame(ops, AfterFind(ops, t, d), SlotOf(ops, t, d), d);
      ChainItem(ops, t, d, ListFind(ops, c, d).value);
    }
    if ops.ItemOf(x) in Contents(t.buckets) && ops.Same(d, x) {
      var i := InChain(ops, t, ops.ItemOf(x), d);
      FindComplete(ops, c, d, 0, i);
    }
  }

  lemma FoundNoneIff<D(!new)>(ops: Ops<D>, t: Table<D>, d: D)
    requires GoodOps(ops) && Valid(ops, t) && AllOrdered(ops, t)
    ensures Found(ops, t, d) == None <==> forall x :: x in Contents(t.buckets) ==> !ops.Same(d, x.data)
  {
    if Found(ops, t, d).Some? {
      FoundIff(ops, t, d, Found(ops, t, d).value);
    }
    forall x | x in Contents(t.buckets) && ops.Same(d, x.data)
      ensures Found(ops, t, d).Some?
    {
      FoundIff(ops, t, d, x.data);
    }
  }

  // Some stored item has d's hash and is smaller than d.
  ghost predicate Blocked<D>(ops: Ops<D>, t: Table<D>, d: D) {
    exists x :: x in Contents(t.buckets) && x.key == ops.hash(d) && ops.Cmp(d, x.data) > 0
  }

  lemma BlockedIffCollides<D>(ops: Ops<D>, t: Table<D>, d: D)
    requires Valid(ops, t)
    ensures Blocked(ops, t, d) <==> Collides(ops, ChainOf(ops, t, d), d)
  {
    var c := ChainOf(ops, t, d);
    if Blocked(ops, t, d) {
      var x :| x in Contents(t.buckets) && x.key == ops.hash(d) && ops.Cmp(d, x.data) > 0;
      var i := InChain(ops, t, x, d);
      assert c[i] == x;
    }
    if Collides(ops, c, d) {
      var k :| 0 <= k < |c| && c[k].key == ops.hash(d) && ops.Cmp(d, c[k].data) > 0;
      ChainItem(ops, t, d, k);
    }
  }

  lemma GrownOrdered<D>(ops: Ops<D>, t: Table<D>)
    requires AllOrdered(ops, t)
    ensures AllOrdered(ops, GrownIfFull(t))
  {
    forall b | 0 <= b < |GrownIfFull(t).buckets|
      ensures Ordered(ops, Chain(GrownIfFull(t).buckets, b))
    {
      if b < |t.buckets| {
        assert Ordered(ops, Chain(t.buckets, b));
      }
    }
  }

  lemma PutOrdered<D>(ops: Ops<D>, t: Table<D>, e: nat, c: seq<Item<D>>, count: nat)
    requires AllOrdered(ops, t) && e < |t.buckets| && Ordered(ops, c)
    ensures AllOrdered(ops, Put(t, e, c, count))
  {
    forall b | 0 <= b < |t.buckets|
      ensures Ordered(ops, Chain(Put(t, e, c, count).buckets, b))
    {
      assert Ordered(ops, Chain(t.buckets, b));
    }
  }

  // Insertion fails exactly when an equal item is stored.
  lemma InsertFailsIff<D(!new)>(ops: Ops<D>, t: Table<D>, d: D)
    requires GoodOps(ops) && Valid(ops, t) && AllOrdered(ops, t)
    ensures Inserted(ops, t, d) <==> Found(ops, t, d).None?
  {
    ChainGood(ops, t, d);
    NotInsertedIff(ops, ChainOf(ops, t, d), d);
  }

  lemma NotInsertedIff<D(!new)>(ops: Ops<D>, c: seq<Item<D>>, d: D)
    requires GoodOps(ops) && Sorted(c) && Ordered(ops, c)
    ensures ListInsertAt(ops, c, d).Some? <==> ListFind(ops, c, d).None?
    ensures ListFind(ops, c, d).None? ==> forall j :: 0 <= j < |c| ==> !SameItem(ops, c[j], d)
  {
    if j :| 0 <= j < |c| && SameItem(ops, c[j], d) {
      FindComplete(ops, c, d, 0, j);
      InsertMeetsSame(ops, c, d, 0, j);
    } else {
      InsertMeetsNone(ops, c, d, 0);
      ListFindSound(ops, c, d, 0);
    }
  }

  // Chains stay in the order lookups need when no smaller item has the same hash.
  lemma InsertKeepsOrder<D(!new)>(ops: Ops<D>, t: Table<D>, d: D)
    requires GoodOps(ops) && Valid(ops, t) && AllOrdered(ops, t) && !Blocked(ops, t, d)
    ensures AllOrdered(ops, AfterInsert(ops, t, d))
  {
    var t1, e, c := AfterFind(ops, t, d), SlotOf(ops, t, d), ChainOf(ops, t, d);
    ChainGood(ops, t, d);
    BlockedIffCollides(ops, t, d);
    InsertOrdered(ops, c, d, 0);
    FindOrdered(ops, t, d);
    var r := ListInsertAt(ops, c, d);
    if r.Some? {
      var c' := InsertedAt(c, r.value, ops.ItemOf(d));
      PutOrdered(ops, t1, e, c', t1.count + 1);
      GrownOrdered(ops, Put(t1, e, c', t1.count + 1));
    }
  }

  // A hidden item stays hidden when the table grows and its bucket is split.
  lemma HiddenSplit<D>(ops: Ops<D>, t: Table<D>, e: nat, d: D)
    requires Shape(t) && Shape(Grow(t)) && e == SlotOf(ops, t, d) != SlotOf(ops, Grow(t), d) && t.buckets[e].Some?
    requires Sorted(Chain(t.buckets, e)) && Hidden(ops, Chain(t.buckets, e), d)
    ensures Hidden(ops, ChainOf(ops, Grow(t), d), d)
  {
    var t', c := Grow(t), Chain(t.buckets, e);
    var e' := SlotOf(ops, t', d);
    var k :| 0 <= k < |c| && HiddenBy(ops, c, d, k);
    LowStep(ops.hash(d), t.log);
    ParentOfUpper(e', t.log);
    SelectHidden(ops, c, t'.log, e', d, k);
    assert t'.buckets[e'].None? && t'.buckets[e] == t.buckets[e];
    assert AfterFind(ops, t', d) == Fill(Split(t', e), e');
  }

  lemma HiddenLost<D>(ops: Ops<D>, t: Table<D>, e: nat, d: D)
    requires Shape(t) && Shape(GrownIfFull(t)) && e == SlotOf(ops, t, d) && t.buckets[e].Some?
    requires Sorted(Chain(t.buckets, e)) && Hidden(ops, Chain(t.buckets, e), d)
    ensures Found(ops, GrownIfFull(t), d).None?
  {
    var t' := GrownIfFull(t);
    if t' != t && SlotOf(ops, t', d) != e {
      HiddenSplit(ops, t, e, d);
    }
    var c := ChainOf(ops, t', d);
    var k :| 0 <= k < |c| && HiddenBy(ops, c, d, k);
    HiddenNotFound(ops, c, d, 0, k);
  }

  lemma InsertIntoLost<D(!new)>(ops: Ops<D>, t: Table<D>, e: nat, d: D)
    requires Shape(t) && e == SlotOf(ops, t, d) && t.buckets[e].Some? && Shape(InsertInto(ops, t, e, d))
    requires var c := Chain(t.buckets, e);
      Sorted(c) && Collides(ops, c, d) && forall j :: 0 <= j < |c| ==> !SameItem(ops, c[j], d)
    ensures Found(ops, InsertInto(ops, t, e, d), d).None?
  {
    var c := Chain(t.buckets, e);
    var k :| 0 <= k < |c| && c[k].key == ops.hash(d) && ops.Cmp(d, c[k].data) > 0;
    InsertHidden(ops, c, d, 0, k);
    ListInsertSorted(ops, c, d, 0);
    var c' := InsertedAt(c, ListInsertAt(ops, c, d).value, ops.ItemOf(d));
    HiddenLost(ops, Put(t, e, c', t.count + 1), e, d);
  }

  // An inserted item can be found again exactly when no smaller item with its hash is stored.
  lemma InsertFindableIff<D(!new)>(ops: Ops<D>, t: Table<D>, d: D)
    requires GoodOps(ops) && Valid(ops, t) && AllOrdered(ops, t)
    requires Inserted(ops, t, d) && t.count + 1 < MAX_ELEMENTS
    ensures Valid(ops, AfterInsert(ops, t, d))
    ensures Found(ops, AfterInsert(ops, t, d), d) == if Blocked(ops, t, d) then None else Some(d)
  {
    InsertKeeps(ops, t, d);
    if Blocked(ops, t, d) {
      BlockedIffCollides(ops, t, d);
      ChainGood(ops, t, d);
      NotInsertedIff(ops, ChainOf(ops, t, d), d);
      InsertIntoLost(ops, AfterFind(ops, t, d), SlotOf(ops, t, d), d);
    } else {
      InsertKeepsOrder(ops, t, d);
      CmpSwap(ops, d, d);
      FoundIff(ops, AfterInsert(ops, t, d), d, d);
    }
  }

  lemma FirstInsert<D(!new)>(ops: Ops<D>, t: Table<D>, d: D)
    requires GoodOps(ops) && t == Create()
    ensures var t' := AfterInsert(ops, t, d);
      Valid(ops, t') && AllOrdered(ops, t') && t'.count == 1 && Contents(t'.buckets) == multiset{ops.ItemOf(d)}
  {
    CreateValid(ops);
    assert AllOrdered(ops, t);
    assert !Blocked(ops, t, d);
    FoundNoneIff(ops, t, d);
    InsertFailsIff(ops, t, d);
    InsertKeeps(ops, t, d);
    InsertKeepsOrder(ops, t, d);
  }

  lemma SubtractionGood(cmp: Cmp<int>)
    requires forall x, y :: cmp(x, y) == x - y
    ensures GoodCmp(cmp)
  {
  }

  // Two numbers with the same hash, the smaller one inserted first: the larger one is lost.
  lemma BlockedExample(ops: Ops<int>, t: Table<int>)
    requires forall x :: ops.hash(x) == 0
    requires ops.cmp.Some? && forall x, y :: ops.cmp.value(x, y) == x - y
    requires t == AfterInsert(ops, Create(), 1)
    ensures Shape(t) && Shape(AfterInsert(ops, t, 2))
    ensures Inserted(ops, t, 2) && Found(ops, AfterInsert(ops, t, 2), 2) == None
  {
    SubtractionGood(ops.cmp.value);
    FirstInsert(ops, Create(), 1);
    assert ops.ItemOf(1) in Contents(t.buckets);
    FoundNoneIff(ops, t, 2);
    InsertFailsIff(ops, t, 2);
    assert Blocked(ops, t, 2);
    InsertFindableIff(ops, t, 2);
  }
}
