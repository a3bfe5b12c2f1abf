// The operations of the hash table on its value: what each one returns and leaves behind, and the
// invariant that every one of them keeps.
module HashSpec {
  import opened Bits
  import opened SplitOrder
  import opened Options
  import opened SplitTable

  // The callbacks given to fr_hash_table_create. Without a comparison function, items with the
  // same hash are equal.
  datatype Ops<!D> = Ops(hash: D -> Key, cmp: Option<(D, D) -> int>) {
    function Cmp(x: D, y: D): int {
      if cmp.Some? then cmp.value(x, y) else 0
    }

    function ItemOf(d: D): Item<D> {
      Item(hash(d), d)
    }

    predicate Same(x: D, y: D) {
      hash(x) == hash(y) && Cmp(x, y) == 0
    }
  }

  // ---------- chains ----------

  // list_find
  ghost function ListFind<D>(ops: Ops<D>, c: seq<Item<D>>, d: D, i: nat := 0): (r: Option<nat>)
    requires i <= |c|
    ensures r.Some? ==> i <= r.value < |c|
    decreases |c| - i
  {
    if i == |c| then None
    else if Position(c[i].key) == Position(ops.hash(d)) then
      var cmp := ops.Cmp(d, c[i].data);
      if cmp > 0 then None
      else if cmp < 0 then ListFind(ops, c, d, i + 1)
      else Some(i)
    else if Position(c[i].key) > Position(ops.hash(d)) then None
    else ListFind(ops, c, d, i + 1)
  }

  // list_insert: the index the new node gets, or None when an equal item is met first. The link
  // to change moves past a node with the same hash before that node is compared.
  ghost function ListInsertAt<D>(ops: Ops<D>, c: seq<Item<D>>, d: D, i: nat := 0): (r: Option<nat>)
    requires i <= |c|
    ensures r.Some? ==> i <= r.value <= |c|
    decreases |c| - i
  {
    if i == |c| then Some(i)
    else if Position(c[i].key) > Position(ops.hash(d)) then Some(i)
    else if Position(c[i].key) == Position(ops.hash(d)) then
      var cmp := ops.Cmp(d, c[i].data);
      if cmp > 0 then Some(i + 1)
      else if cmp < 0 then ListInsertAt(ops, c, d, i + 1)
      else None
    else ListInsertAt(ops, c, d, i + 1)
  }

  function InsertedAt<D>(c: seq<Item<D>>, i: nat, x: Item<D>): seq<Item<D>>
    requires i <= |c|
  {
    c[..i] + [x] + c[i..]
  }

  function RemovedAt<D>(c: seq<Item<D>>, i: nat): seq<Item<D>>
    requires i < |c|
  {
    c[..i] + c[i + 1..]
  }

  // ---------- the table ----------

  // 2.5 * 2^29, where next_grow reaches its largest value in a C int.
  const MAX_ELEMENTS: nat := 0x5000_0000

  function NextGrow(log: nat): nat {
    Shl(Pow2(log), 1) + Shr(Pow2(log), 1)
  }

  function Create<D>(): Table<D> {
    Table(6, [Some([])] + seq(63, _ => None), 0)
  }

  function Grow<D>(t: Table<D>): Table<D> {
    Table(t.log + 1, t.buckets + seq(|t.buckets|, _ => None), t.count)
  }

  // The table with another chain in bucket e.
  function Put<D>(t: Table<D>, e: nat, c: seq<Item<D>>, count: nat): Table<D>
    requires e < |t.buckets|
  {
    t.(buckets := t.buckets[e := Some(c)], count := count)
  }

  function GrownIfFull<D>(t: Table<D>): Table<D> {
    if t.count >= NextGrow(t.log) then Grow(t) else t
  }

  function SlotOf<D>(ops: Ops<D>, t: Table<D>, d: D): (e: nat)
    requires Shape(t)
    ensures e < |t.buckets|
  {
    Slot(ops.hash(d), t.log)
  }

  // The table with the bucket of d filled, and the chain found there.
  function AfterFind<D>(ops: Ops<D>, t: Table<D>, d: D): (r: Table<D>)
    requires Shape(t)
    ensures Shape(r)
  {
    Touch(t, SlotOf(ops, t, d))
  }

  function ChainOf<D>(ops: Ops<D>, t: Table<D>, d: D): seq<Item<D>>
    requires Shape(t)
  {
    Chain(AfterFind(ops, t, d).buckets, SlotOf(ops, t, d))
  }

  // fr_hash_table_finddata
  ghost function Found<D>(ops: Ops<D>, t: Table<D>, d: D): Option<D>
    requires Shape(t)
  {
    var c := ChainOf(ops, t, d);
    var i := ListFind(ops, c, d);
    if i.Some? then Some(c[i.value].data) else None
  }

  // fr_hash_table_insert
  ghost function Inserted<D>(ops: Ops<D>, t: Table<D>, d: D): bool
    requires Shape(t)
  {
    ListInsertAt(ops, ChainOf(ops, t, d), d).Some?
  }

  ghost function AfterInsert<D>(ops: Ops<D>, t: Table<D>, d: D): Table<D>
    requires Shape(t)
  {
    InsertInto(ops, AfterFind(ops, t, d), SlotOf(ops, t, d), d)
  }

  // Insertion once the bucket has been filled.
  ghost function InsertInto<D>(ops: Ops<D>, t: Table<D>, e: nat, d: D): Table<D>
    requires e < |t.buckets|
  {
    var c := Chain(t.buckets, e);
    var i := ListInsertAt(ops, c, d);
    if i.None? then t
    else GrownIfFull(Put(t, e, InsertedAt(c, i.value, ops.ItemOf(d)), t.count + 1))
  }

  // fr_hash_table_replace
  ghost function AfterReplace<D>(ops: Ops<D>, t: Table<D>, d: D): Table<D>
    requires Shape(t)
  {
    var t1, e, c := AfterFind(ops, t, d), SlotOf(ops, t, d), ChainOf(ops, t, d);
    var i := ListFind(ops, c, d);
    if i.None? then AfterInsert(ops, t1, d)
    else Put(t1, e, c[i.value := c[i.value].(data := d)], t1.count)
  }

  // The result of fr_hash_table_replace: false only when the item is not found and not inserted.
  ghost function Replaced<D>(ops: Ops<D>, t: Table<D>, d: D): bool
    requires Shape(t)
  {
    Found(ops, t, d).Some? || Inserted(ops, AfterFind(ops, t, d), d)
  }

  // fr_hash_table_yank; what it returns is Found.
  ghost function AfterYank<D>(ops: Ops<D>, t: Table<D>, d: D): Table<D>
    requires Shape(t)
  {
    var t1, e, c := AfterFind(ops, t, d), SlotOf(ops, t, d), ChainOf(ops, t, d);
    var i := ListFind(ops, c, d);
    if i.None? then t1
    else Put(t1, e, RemovedAt(c, i.value), if t1.count > 0 then t1.count - 1 else 0)
  }

  // ---------- what every operation keeps ----------

  // The placement invariant, the element count, and keys that are hashes.
  ghost predicate Consistent<D>(ops: Ops<D>, t: Table<D>) {
    && Inv(t)
    && t.count == |Contents(t.buckets)|
    && forall x :: x in Contents(t.buckets) ==> x.key == ops.hash(x.data)
  }

  // A consistent table below its load limit.
  ghost predicate Valid<D>(ops: Ops<D>, t: Table<D>) {
    Consistent(ops, t) && t.count < NextGrow(t.log)
  }

  lemma PositionInjective(a: Key, b: Key)
    requires Position(a) == Position(b)
    ensures a == b
  {
    Pow2Values();
    RevInjective(a, b, WordBits());
  }

  lemma {:induction false} ListFindSound<D>(ops: Ops<D>, c: seq<Item<D>>, d: D, i: nat)
    requires i <= |c|
    ensures var r := ListFind(ops, c, d, i);
      r.Some? ==> c[r.value].key == ops.hash(d) && ops.Cmp(d, c[r.value].data) == 0
    decreases |c| - i
  {
    if i < |c| {
      if Position(c[i].key) == Position(ops.hash(d)) {
        PositionInjective(c[i].key, ops.hash(d));
      }
      ListFindSound(ops, c, d, i + 1);
    }
  }

  // list_insert keeps the chain sorted, wherever equal hashes put the node.
  lemma {:induction false} ListInsertSorted<D>(ops: Ops<D>, c: seq<Item<D>>, d: D, i: nat)
    requires i <= |c| && Sorted(c)
    requires forall j :: 0 <= j < i ==> Position(c[j].key) <= Position(ops.hash(d))
    ensures var r := ListInsertAt(ops, c, d, i);
      r.Some? ==> Sorted(InsertedAt(c, r.value, ops.ItemOf(d)))
    decreases |c| - i
  {
    if i < |c| && Position(c[i].key) <= Position(ops.hash(d)) {
      ListInsertSorted(ops, c, d, i + 1);
      if Position(c[i].key) == Position(ops.hash(d)) && ops.Cmp(d, c[i].data) > 0 {
        assert forall j :: i < j < |c| ==> Position(c[j].key) >= Position(c[i].key);
      }
    }
  }

  lemma UpdatePlaced<D>(t: Table<D>, e: nat, c: seq<Item<D>>, count: nat)
    requires Inv(t) && e < |t.buckets| && t.buckets[e].Some? && Sorted(c)
    requires forall i :: 0 <= i < |c| ==> c[i] in Chain(t.buckets, e) || Slot(c[i].key, t.log) == e
    ensures Inv(Put(t, e, c, count))
  {
    var t' := Put(t, e, c, count);
    forall b, i | 0 <= b < |t.buckets| && 0 <= i < |Chain(t'.buckets, b)|
      ensures Home(t'.buckets, Slot(Chain(t'.buckets, b)[i].key, t.log)) == b
    {
      var x := Chain(t'.buckets, b)[i];
      HomeSame(t.buckets, t'.buckets, Slot(x.key, t.log));
      if b != e {
        assert Home(t.buckets, Slot(Chain(t.buckets, b)[i].key, t.log)) == b;
      } else if x in Chain(t.buckets, e) {
        var j :| 0 <= j < |Chain(t.buckets, e)| && Chain(t.buckets, e)[j] == x;
        assert Home(t.buckets, Slot(Chain(t.buckets, e)[j].key, t.log)) == e;
      }
    }
    forall b | 0 <= b < |t.buckets|
      ensures Sorted(Chain(t'.buckets, b))
    {
      if b != e {
        assert Sorted(Chain(t.buckets, b));
      }
    }
  }

  lemma {:induction false} HomeSame<D>(bs: Buckets<D>, bs': Buckets<D>, e: nat)
    requires |bs| <= |bs'| && e < |bs|
    requires forall b :: 0 <= b < |bs| ==> (bs[b].Some? <==> bs'[b].Some?)
    ensures Home(bs', e) == Home(bs, e)
    decreases e
  {
    if e == 0 || bs[e].Some? {
    } else {
      HomeSame(bs, bs', Parent(e));
    }
  }

  lemma GrowChain<D>(t: Table<D>, b: nat)
    requires b < |t.buckets| + |t.buckets|
    ensures Chain(Grow(t).buckets, b) == if b < |t.buckets| then Chain(t.buckets, b) else []
  {
  }

  // The new upper buckets are NULL children of the lower ones, so no item's home changes.
  lemma GrowHome<D>(t: Table<D>, key: Key)
    requires Shape(t)
    ensures |Grow(t).buckets| == Pow2(t.log + 1)
    ensures Home(Grow(t).buckets, Slot(key, t.log + 1)) == Home(t.buckets, Slot(key, t.log))
  {
    var t' := Grow(t);
    HomeSame(t.buckets, t'.buckets, Slot(key, t.log));
    LowStep(key, t.log);
    var e := Low(key, t.log + 1);
    if e != Low(key, t.log) {
      ParentOfUpper(e, t.log);
      assert t'.buckets[e].None?;
    }
  }

  // Growing keeps the invariant and the items.
  lemma GrowPlaced<D>(t: Table<D>)
    requires Inv(t) && t.log < MAX_LOG
    ensures Inv(Grow(t))
    ensures Contents(Grow(t).buckets) == Contents(t.buckets)
  {
    var t' := Grow(t);
    ContentsExtend(t.buckets, |t.buckets|);
    forall b, i | 0 <= b < |t'.buckets| && 0 <= i < |Chain(t'.buckets, b)|
      ensures Home(t'.buckets, Slot(Chain(t'.buckets, b)[i].key, t'.log)) == b
    {
      GrowHomes(t, b, i);
    }
    forall b | 0 <= b < |t'.buckets|
      ensures Sorted(Chain(t'.buckets, b))
    {
      GrowChain(t, b);
      if b < |t.buckets| {
        SortedChain(t, b);
      }
    }
  }

  lemma GrowHomes<D>(t: Table<D>, b: nat, i: nat)
    requires Inv(t) && b < |Grow(t).buckets| && i < |Chain(Grow(t).buckets, b)|
    ensures Home(Grow(t).buckets, Slot(Chain(Grow(t).buckets, b)[i].key, t.log + 1)) == b
  {
    GrowChain(t, b);
    GrowHome(t, Chain(t.buckets, b)[i].key);
    assert Home(t.buckets, Slot(Chain(t.buckets, b)[i].key, t.log)) == b;
  }

  lemma CreateValid<D>(ops: Ops<D>)
    ensures Valid(ops, Create())
    ensures Contents(Create<D>().buckets) == multiset{}
  {
    Pow2Values();
    CreateEmpty<D>();
    assert NextGrow(6) > 0;
  }

  lemma CreateEmpty<D>()
    ensures Contents(Create<D>().buckets) == multiset{}
  {
    var first: Buckets<D> := [Some([])];
    ContentsExtend(first, 63);
    assert Contents(first) == Contents(first[..0]) + multiset(Chain(first, 0));
  }

  lemma TouchValid<D>(ops: Ops<D>, t: Table<D>, e: nat)
    requires Valid(ops, t) && e < |t.buckets|
    ensures Valid(ops, Touch(t, e)) && Contents(Touch(t, e).buckets) == Contents(t.buckets)
  {
    TouchKeeps(t, e);
  }

  lemma FindKeeps<D>(ops: Ops<D>, t: Table<D>, d: D)
    requires Valid(ops, t)
    ensures Valid(ops, AfterFind(ops, t, d))
    ensures Contents(AfterFind(ops, t, d).buckets) == Contents(t.buckets)
  {
    TouchValid(ops, t, SlotOf(ops, t, d));
  }

  lemma NextGrowDoubles(log: nat)
    requires log > 0
    ensures NextGrow(log + 1) == 2 * NextGrow(log) > 0
    ensures NextGrow(log) == 2 * Pow2(log) + Pow2(log - 1)
  {
    assert Shr(Pow2(log), 1) == Pow2(log) / 2;
    assert Shr(Pow2(log + 1), 1) == Pow2(log + 1) / 2;
    assert Shl(Pow2(log), 1) == 2 * Pow2(log);
    assert Shl(Pow2(log + 1), 1) == 2 * Pow2(log + 1);
  }

  // The table grows before it has as many elements as a C int can count to.
  lemma GrowRoom(log: nat, count: nat)
    requires 6 <= log <= MAX_LOG && NextGrow(log) <= count < MAX_ELEMENTS
    ensures log < MAX_LOG
  {
    Pow2Values();
  }

  // Changing one chain by taking some items out and putting others in.
  lemma UpdateConsistent<D>(ops: Ops<D>, t: Table<D>, e: nat, c: seq<Item<D>>, gone: multiset<Item<D>>,
                            added: multiset<Item<D>>, count: nat)
    requires Consistent(ops, t) && e < |t.buckets| && t.buckets[e].Some? && Sorted(c)
    requires multiset(c) + gone == multiset(Chain(t.buckets, e)) + added
    requires forall x :: x in added ==> x.key == ops.hash(x.data) && Slot(x.key, t.log) == e
    requires count + |gone| == t.count + |added|
    ensures Consistent(ops, Put(t, e, c, count))
    ensures Contents(Put(t, e, c, count).buckets) + gone == Contents(t.buckets) + added
  {
    UpdateContents(t.buckets, e, c, gone, added);
    var before, after := Contents(t.buckets), Contents(t.buckets[e := Some(c)]);
    assert |after + gone| == |after| + |gone| && |before + added| == |before| + |added|;
    forall i | 0 <= i < |c|
      ensures c[i] in Chain(t.buckets, e) || Slot(c[i].key, t.log) == e
    {
      assert c[i] in multiset(c) + gone;
      assert c[i] in multiset(Chain(t.buckets, e)) || c[i] in added;
    }
    UpdatePlaced(t, e, c, count);
    forall x | x in after
      ensures x.key == ops.hash(x.data)
    {
      assert x in after + gone;
      assert x in before || x in added;
    }
  }

  lemma UpdateContents<D>(bs: Buckets<D>, e: nat, c: seq<Item<D>>, gone: multiset<Item<D>>, added: multiset<Item<D>>)
    requires e < |bs| && bs[e].Some?
    requires multiset(c) + gone == multiset(Chain(bs, e)) + added
    ensures Contents(bs[e := Some(c)]) + gone == Contents(bs) + added
  {
    ContentsUpdate(bs, bs[e := Some(c)], e);
    Exchange(Contents(bs), Contents(bs[e := Some(c)]), multiset(Chain(bs, e)), multiset(c), gone, added);
  }

  lemma Exchange<T>(a: multiset<T>, a': multiset<T>, c: multiset<T>, c': multiset<T>, gone: multiset<T>, added: multiset<T>)
    requires a' + c == a + c' && c' + gone == c + added
    ensures a' + gone == a + added
  {
    forall x
      ensures (a' + gone)[x] == (a + added)[x]
    {
      assert (a' + c)[x] == (a + c')[x];
      assert (c' + gone)[x] == (c + added)[x];
    }
    MultisetsEqual(a' + gone, a + added);
  }

  lemma UpdateInserted<D>(ops: Ops<D>, t: Table<D>, e: nat, i: nat, d: D)
    requires Consistent(ops, t) && e < |t.buckets| && t.buckets[e].Some? && e == Slot(ops.hash(d), t.log)
    requires ListInsertAt(ops, Chain(t.buckets, e), d) == Some(i)
    ensures var t' := Put(t, e, InsertedAt(Chain(t.buckets, e), i, ops.ItemOf(d)), t.count + 1);
      Consistent(ops, t') && Contents(t'.buckets) == Contents(t.buckets) + multiset{ops.ItemOf(d)}
  {
    var c := Chain(t.buckets, e);
    SortedChain(t, e);
    ListInsertSorted(ops, c, d, 0);
    InsertedCount(c, i, ops.ItemOf(d));
    var c', none: multiset<Item<D>> := InsertedAt(c, i, ops.ItemOf(d)), multiset{};
    PlusNone(multiset(c'), none);
    Single(ops.ItemOf(d));
    UpdateConsistent(ops, t, e, c', none, multiset{ops.ItemOf(d)}, t.count + 1);
    PlusNone(Contents(Put(t, e, c', t.count + 1).buckets), none);
  }

  lemma SortedChain<D>(t: Table<D>, e: nat)
    requires Inv(t) && e < |t.buckets|
    ensures Sorted(Chain(t.buckets, e))
  {
  }

  lemma PlusNone<T>(a: multiset<T>, none: multiset<T>)
    requires none == multiset{}
    ensures a + none == a && |none| == 0
  {
  }

  lemma Single<T>(x: T)
    ensures |multiset{x}| == 1
  {
  }

  lemma GrowConsistent<D>(ops: Ops<D>, t: Table<D>)
    requires Consistent(ops, t) && t.log < MAX_LOG
    ensures Consistent(ops, Grow(t)) && Contents(Grow(t).buckets) == Contents(t.buckets)
  {
    GrowPlaced(t);
  }

  // A new table has 64 buckets, all NULL but the first, which is empty.
  lemma CreateIs<D>()
    ensures var t := Create<D>();
      |t.buckets| == 64 && t.buckets[0] == Some([]) && t.count == 0 && forall b :: 0 < b < 64 ==> t.buckets[b] == None
  {
  }

  // A table grows exactly when it holds two and a half times as many elements as it has buckets: the number of
  // buckets doubles, the old ones stay and the new ones are NULL.
  lemma GrowsIff<D>(t: Table<D>)
    requires Shape(t)
    ensures var t' := GrownIfFull(t);
      if 2 * t.count >= 5 * |t.buckets| then
        && |t'.buckets| == 2 * |t.buckets| && t'.buckets[..|t.buckets|] == t.buckets && t'.count == t.count
        && forall b :: |t.buckets| <= b < |t'.buckets| ==> t'.buckets[b] == None
      else t' == t
  {
    NextGrowDoubles(t.log);
    assert Pow2(t.log) == 2 * Pow2(t.log - 1);
  }

  // One more element fills a table at most up to its limit, and then it doubles.
  lemma GrowIfFull<D>(ops: Ops<D>, t: Table<D>)
    requires Consistent(ops, t) && t.count <= NextGrow(t.log) && t.count < MAX_ELEMENTS
    ensures Valid(ops, GrownIfFull(t)) && Contents(GrownIfFull(t).buckets) == Contents(t.buckets)
  {
    if t.count >= NextGrow(t.log) {
      GrowRoom(t.log, t.count);
      GrowConsistent(ops, t);
      NextGrowDoubles(t.log);
    }
  }

  lemma InsertIntoKeeps<D>(ops: Ops<D>, t: Table<D>, e: nat, d: D)
    requires Valid(ops, t) && t.count + 1 < MAX_ELEMENTS
    requires e < |t.buckets| && t.buckets[e].Some? && e == Slot(ops.hash(d), t.log)
    ensures Valid(ops, InsertInto(ops, t, e, d))
    ensures ListInsertAt(ops, Chain(t.buckets, e), d).None? ==> InsertInto(ops, t, e, d) == t
    ensures ListInsertAt(ops, Chain(t.buckets, e), d).Some?
      ==> Contents(InsertInto(ops, t, e, d).buckets) == Contents(t.buckets) + multiset{ops.ItemOf(d)}
  {
    hide Consistent, Chain, Contents, ListInsertAt, GrownIfFull, InsertedAt;
    var c := Chain(t.buckets, e);
    var i := ListInsertAt(ops, c, d);
    if i.Some? {
      var put := Put(t, e, InsertedAt(c, i.value, ops.ItemOf(d)), t.count + 1);
      UpdateInserted(ops, t, e, i.value, d);
      assert InsertInto(ops, t, e, d) == GrownIfFull(put);
      GrowIfFull(ops, put);
    } else {
      assert InsertInto(ops, t, e, d) == t;
    }
  }

  // Inserting adds exactly the new item, or leaves the items alone and reports it.
  lemma InsertKeeps<D>(ops: Ops<D>, t: Table<D>, d: D)
    requires Valid(ops, t) && t.count + 1 < MAX_ELEMENTS
    ensures Valid(ops, AfterInsert(ops, t, d))
    ensures Contents(AfterInsert(ops, t, d).buckets)
         == if Inserted(ops, t, d) then Contents(t.buckets) + multiset{ops.ItemOf(d)} else Contents(t.buckets)
  {
    FindKeeps(ops, t, d);
    InsertIntoKeeps(ops, AfterFind(ops, t, d), SlotOf(ops, t, d), d);
  }

  lemma InsertedCount<T>(c: seq<Item<T>>, i: nat, x: Item<T>)
    requires i <= |c|
    ensures multiset(InsertedAt(c, i, x)) == multiset(c) + multiset{x}
  {
    assert c == c[..i] + c[i..];
  }

  lemma RemovedCount<T>(c: seq<Item<T>>, i: nat)
    requires i < |c|
    ensures multiset(RemovedAt(c, i)) + multiset{c[i]} == multiset(c)
  {
    assert c == c[..i] + [c[i]] + c[i + 1..];
  }

  lemma RemovedSorted<T>(c: seq<Item<T>>, i: nat)
    requires i < |c| && Sorted(c)
    ensures Sorted(RemovedAt(c, i))
  {
  }

  lemma ChainFilled<D>(bs: Buckets<D>, e: nat)
    requires e < |bs| && Chain(bs, e) != []
    ensures bs[e].Some?
  {
  }

  lemma UpdateRemoved<D>(ops: Ops<D>, t: Table<D>, e: nat, k: nat)
    requires Consistent(ops, t) && e < |t.buckets| && k < |Chain(t.buckets, e)|
    ensures t.count > 0
    ensures var t' := Put(t, e, RemovedAt(Chain(t.buckets, e), k), t.count - 1);
      && Consistent(ops, t')
      && Contents(t'.buckets) + multiset{Chain(t.buckets, e)[k]} == Contents(t.buckets)
  {
    hide Inv, Put, RemovedAt, Contents, Chain, Sorted;
    var c, none: multiset<Item<D>> := Chain(t.buckets, e), multiset{};
    SortedChain(t, e);
    RemovedSorted(c, k);
    ChainFilled(t.buckets, e);
    RemovedCount(c, k);
    PlusNone(multiset(c), none);
    Single(c[k]);
    ContentsMember(t.buckets, e, k);
    UpdateConsistent(ops, t, e, RemovedAt(c, k), multiset{c[k]}, none, t.count - 1);
    PlusNone(Contents(t.buckets), none);
  }

  // What list_find returns is a stored item with the same hash that compares equal.
  lemma FoundSame<D>(ops: Ops<D>, t: Table<D>, e: nat, d: D)
    requires Consistent(ops, t) && e < |t.buckets| && ListFind(ops, Chain(t.buckets, e), d).Some?
    ensures var x := Chain(t.buckets, e)[ListFind(ops, Chain(t.buckets, e), d).value];
      ops.Same(d, x.data) && x == ops.ItemOf(x.data)
  {
    var c := Chain(t.buckets, e);
    ListFindSound(ops, c, d, 0);
    ContentsMember(t.buckets, e, ListFind(ops, c, d).value);
  }

  // Yanking removes exactly the item it returns.
  lemma YankKeeps<D>(ops: Ops<D>, t: Table<D>, d: D)
    requires Valid(ops, t)
    ensures Valid(ops, AfterYank(ops, t, d))
    ensures var f := Found(ops, t, d);
      if f.Some? then
        && ops.Same(d, f.value)
        && Contents(AfterYank(ops, t, d).buckets) + multiset{ops.ItemOf(f.value)} == Contents(t.buckets)
      else Contents(AfterYank(ops, t, d).buckets) == Contents(t.buckets)
  {
    var t1, e, c := AfterFind(ops, t, d), SlotOf(ops, t, d), ChainOf(ops, t, d);
    FindKeeps(ops, t, d);
    var i := ListFind(ops, c, d);
    if i.Some? {
      FoundSame(ops, t1, e, d);
      UpdateRemoved(ops, t1, e, i.value);
    }
  }

  lemma UpdateReplaced<D>(ops: Ops<D>, t: Table<D>, e: nat, k: nat, d: D)
    requires Consistent(ops, t) && e < |t.buckets| && k < |Chain(t.buckets, e)|
    requires Chain(t.buckets, e)[k].key == ops.hash(d) && Slot(ops.hash(d), t.log) == e
    ensures var t' := Put(t, e, Chain(t.buckets, e)[k := ops.ItemOf(d)], t.count);
      && Consistent(ops, t')
      && Contents(t'.buckets) + multiset{Chain(t.buckets, e)[k]} == Contents(t.buckets) + multiset{ops.ItemOf(d)}
  {
    var c := Chain(t.buckets, e);
    SortedChain(t, e);
    ReplacedCount(c, k, ops.ItemOf(d));
    Single(c[k]);
    Single(ops.ItemOf(d));
    UpdateConsistent(ops, t, e, c[k := ops.ItemOf(d)], multiset{c[k]}, multiset{ops.ItemOf(d)}, t.count);
  }

  lemma ReplacedCount<T>(c: seq<Item<T>>, k: nat, x: Item<T>)
    requires k < |c|
    ensures multiset(c[k := x]) + multiset{c[k]} == multiset(c) + multiset{x}
  {
    RemovedCount(c, k);
    RemovedCount(c[k := x], k);
    assert RemovedAt(c, k) == RemovedAt(c[k := x], k);
  }

  // Replacing puts the new item in the place of the one that find returns, or inserts it.
  lemma ReplaceKeeps<D>(ops: Ops<D>, t: Table<D>, d: D)
    requires Valid(ops, t) && t.count + 1 < MAX_ELEMENTS
    ensures Valid(ops, AfterReplace(ops, t, d))
    ensures var f := Found(ops, t, d);
      if f.Some? then
        && ops.Same(d, f.value)
        && Contents(AfterReplace(ops, t, d).buckets) + multiset{ops.ItemOf(f.value)}
           == Contents(t.buckets) + multiset{ops.ItemOf(d)}
      else Contents(AfterReplace(ops, t, d).buckets)
           == if Replaced(ops, t, d) then Contents(t.buckets) + multiset{ops.ItemOf(d)} else Contents(t.buckets)
  {
    var t1, e, c := AfterFind(ops, t, d), SlotOf(ops, t, d), ChainOf(ops, t, d);
    FindKeeps(ops, t, d);
    var i := ListFind(ops, c, d);
    if i.None? {
      InsertKeeps(ops, t1, d);
    } else {
      FoundSame(ops, t1, e, d);
      UpdateReplaced(ops, t1, e, i.value, d);
    }
  }
}
