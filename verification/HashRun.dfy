// Whole runs of hash table operations against the finite map they implement.
module HashRun {
  import opened SplitOrder
  import opened Options
  import opened SplitTable
  import opened HashSpec
  import opened HashMap

  datatype Op<+D> = Insert(d: D) | Replace(d: D) | Yank(d: D) | FindData(d: D)

  datatype Out<+D> = Flag(ok: bool) | Data(found: Option<D>)

  ghost function Step<D>(ops: Ops<D>, t: Table<D>, op: Op<D>): (Table<D>, Out<D>)
    requires Shape(t)
  {
    match op
    case Insert(d) => (AfterInsert(ops, t, d), Flag(Inserted(ops, t, d)))
    case Replace(d) => (AfterReplace(ops, t, d), Flag(Replaced(ops, t, d)))
    case Yank(d) => (AfterYank(ops, t, d), Data(Found(ops, t, d)))
    case FindData(d) => (AfterFind(ops, t, d), Data(Found(ops, t, d)))
  }

  // The same operation on a map from names to items.
  function MapStep<D, N>(name: D -> N, m: map<N, D>, op: Op<D>): (map<N, D>, Out<D>) {
    var n := name(op.d);
    var old_ := if n in m then Some(m[n]) else None;
    match op
    case Insert(d) => (if n in m then m else m[n := d], Flag(n !in m))
    case Replace(d) => (m[n := d], Flag(true))
    case Yank(_) => (m - {n}, Data(old_))
    case FindData(_) => (m, Data(old_))
  }

  // A name identifies an item up to what the table regards as equal.
  ghost predicate Names<D(!new), N>(ops: Ops<D>, name: D -> N) {
    forall x, y :: ops.Same(x, y) <==> name(x) == name(y)
  }

  // What a caller has to respect: no new item may be larger than an item with its hash.
  ghost predicate Allowed<D, N>(ops: Ops<D>, name: D -> N, m: map<N, D>, op: Op<D>) {
    (op.Insert? || op.Replace?) ==>
      && |m| + 1 < MAX_ELEMENTS
      && (name(op.d) !in m ==> forall n :: n in m && ops.hash(m[n]) == ops.hash(op.d) ==> ops.Cmp(op.d, m[n]) <= 0)
  }

  // The stored items are the values of the map, once each.
  ghost predicate Represents<D, N>(ops: Ops<D>, name: D -> N, items: multiset<Item<D>>, m: map<N, D>) {
    && |items| == |m|
    && (forall x :: x in items ==>
          items[x] == 1 && x == ops.ItemOf(x.data) && name(x.data) in m && m[name(x.data)] == x.data)
    && (forall n :: n in m ==> name(m[n]) == n && ops.ItemOf(m[n]) in items)
  }

  ghost predicate Good<D(!new), N>(ops: Ops<D>, name: D -> N, t: Table<D>, m: map<N, D>) {
    && Valid(ops, t) && AllOrdered(ops, t) && Represents(ops, name, Contents(t.buckets), m)
  }

  lemma FoundIsLookup<D(!new), N>(ops: Ops<D>, name: D -> N, t: Table<D>, m: map<N, D>, d: D)
    requires GoodOps(ops) && Names(ops, name) && Good(ops, name, t, m)
    ensures Found(ops, t, d) == if name(d) in m then Some(m[name(d)]) else None
  {
    if name(d) in m {
      assert ops.Same(d, m[name(d)]);
      FoundIff(ops, t, d, m[name(d)]);
    } else {
      FoundNoneIff(ops, t, d);
    }
  }

  lemma RepresentsAdd<D(!new), N>(ops: Ops<D>, name: D -> N, items: multiset<Item<D>>, m: map<N, D>, d: D)
    requires Represents(ops, name, items, m) && name(d) !in m
    ensures Represents(ops, name, items + multiset{ops.ItemOf(d)}, m[name(d) := d])
  {
    var items', m' := items + multiset{ops.ItemOf(d)}, m[name(d) := d];
    assert ops.ItemOf(d).data == d;
    assert ops.ItemOf(d) !in items;
    forall x | x in items'
      ensures items'[x] == 1 && x == ops.ItemOf(x.data) && name(x.data) in m' && m'[name(x.data)] == x.data
    {
      assert x in items || x == ops.ItemOf(d);
    }
    forall n | n in m'
      ensures name(m'[n]) == n && ops.ItemOf(m'[n]) in items'
    {
      assert n == name(d) || n in m;
    }
  }

  lemma RepresentsRemove<D(!new), N>(ops: Ops<D>, name: D -> N, items: multiset<Item<D>>, m: map<N, D>, n: N)
    requires Represents(ops, name, items, m) && n in m
    ensures Represents(ops, name, items - multiset{ops.ItemOf(m[n])}, m - {n})
  {
    var x := ops.ItemOf(m[n]);
    var items', m' := items - multiset{x}, m - {n};
    assert x in items && x.data == m[n];
    assert m'.Keys == m.Keys - {n};
    forall y | y in items'
      ensures items'[y] == 1 && y == ops.ItemOf(y.data) && name(y.data) in m' && m'[name(y.data)] == y.data
    {
      assert y in items && items[y] == 1 && items[x] == 1;
      assert y != x;
    }
    forall k | k in m'
      ensures name(m'[k]) == k && ops.ItemOf(m'[k]) in items'
    {
      assert ops.ItemOf(m[k]) in items && ops.ItemOf(m[k]).data == m[k];
    }
  }

  lemma MultisetMinus<T>(a: multiset<T>, b: multiset<T>, x: T)
    requires a + multiset{x} == b
    ensures a == b - multiset{x}
  {
  }

  lemma Exchanged<T>(a: multiset<T>, b: multiset<T>, x: T, y: T)
    requires a + multiset{x} == b + multiset{y} && x in b
    ensures a == b - multiset{x} + multiset{y}
  {
    MultisetMinus(a, b + multiset{y}, x);
  }

  lemma RepresentsYank<D(!new), N>(ops: Ops<D>, name: D -> N, items: multiset<Item<D>>, items': multiset<Item<D>>,
                                   m: map<N, D>, n: N)
    requires Represents(ops, name, items, m) && n in m
    requires items' + multiset{ops.ItemOf(m[n])} == items
    ensures Represents(ops, name, items', m - {n})
  {
    RepresentsRemove(ops, name, items, m, n);
    MultisetMinus(items', items, ops.ItemOf(m[n]));
  }

  lemma RepresentsSwap<D(!new), N>(ops: Ops<D>, name: D -> N, items: multiset<Item<D>>, items': multiset<Item<D>>,
                                   m: map<N, D>, d: D)
    requires Represents(ops, name, items, m) && name(d) in m
    requires items' + multiset{ops.ItemOf(m[name(d)])} == items + multiset{ops.ItemOf(d)}
    ensures Represents(ops, name, items', m[name(d) := d])
  {
    var n := name(d);
    var x := ops.ItemOf(m[n]);
    assert items' == items - multiset{x} + multiset{ops.ItemOf(d)} by {
      Exchanged(items', items, x, ops.ItemOf(d));
    }
    assert Represents(ops, name, items - multiset{x} + multiset{ops.ItemOf(d)}, (m - {n})[n := d]) by {
      RepresentsRemove(ops, name, items, m, n);
      RepresentsAdd(ops, name, items - multiset{x}, m - {n}, d);
    }
    MapSwap(m, n, d);
  }

  lemma MapSwap<N, D>(m: map<N, D>, n: N, d: D)
    ensures (m - {n})[n := d] == m[n := d]
  {
  }

  lemma PutKeepsOrder<D(!new)>(ops: Ops<D>, t: Table<D>, d: D)
    requires GoodOps(ops) && Valid(ops, t) && AllOrdered(ops, t)
    ensures AllOrdered(ops, AfterYank(ops, t, d))
    ensures Found(ops, t, d).Some? ==> AllOrdered(ops, AfterReplace(ops, t, d))
  {
    var t1, e, c := AfterFind(ops, t, d), SlotOf(ops, t, d), ChainOf(ops, t, d);
    FindOrdered(ops, t, d);
    ChainGood(ops, t, d);
    var i := ListFind(ops, c, d);
    if i.Some? {
      ListFindSound(ops, c, d, 0);
      SwapOrdered(ops, c, i.value, d);
      PutOrdered(ops, t1, e, RemovedAt(c, i.value), if t1.count > 0 then t1.count - 1 else 0);
      PutOrdered(ops, t1, e, c[i.value := c[i.value].(data := d)], t1.count);
    }
  }

  // An item may be replaced by an equal one.
  lemma SwapOrdered<D(!new)>(ops: Ops<D>, c: seq<Item<D>>, k: nat, d: D)
    requires GoodOps(ops) && Ordered(ops, c) && k < |c| && ops.Cmp(d, c[k].data) == 0
    ensures Ordered(ops, RemovedAt(c, k))
    ensures Ordered(ops, c[k := c[k].(data := d)])
  {
    var c', x := c[k := c[k].(data := d)], c[k].data;
    CmpSwap(ops, d, x);
    forall a, b | 0 <= a < b < |c'| && c'[a].key == c'[b].key
      ensures ops.Cmp(c'[a].data, c'[b].data) > 0
    {
      assert ops.Cmp(c[a].data, c[b].data) > 0;
      if b == k {
        CmpTrans(ops, c[a].data, x, d);
      } else if a == k {
        CmpTrans(ops, d, x, c[b].data);
      }
    }
  }

  lemma NotBlocked<D(!new), N>(ops: Ops<D>, name: D -> N, t: Table<D>, m: map<N, D>, op: Op<D>)
    requires Represents(ops, name, Contents(t.buckets), m) && Allowed(ops, name, m, op)
    requires (op.Insert? || op.Replace?) && name(op.d) !in m
    ensures !Blocked(ops, t, op.d)
  {
  }

  lemma InsertRefines<D(!new), N>(ops: Ops<D>, name: D -> N, t: Table<D>, m: map<N, D>, op: Op<D>)
    requires GoodOps(ops) && Names(ops, name) && Good(ops, name, t, m)
    requires Allowed(ops, name, m, op) && (op.Insert? || op.Replace?)
    ensures Inserted(ops, t, op.d) <==> name(op.d) !in m
    ensures Good(ops, name, AfterInsert(ops, t, op.d), if name(op.d) in m then m else m[name(op.d) := op.d])
  {
    var d := op.d;
    FoundIsLookup(ops, name, t, m, d);
    InsertFailsIff(ops, t, d);
    InsertKeeps(ops, t, d);
    if name(d) in m {
      FindOrdered(ops, t, d);
      assert AfterInsert(ops, t, d) == AfterFind(ops, t, d);
    } else {
      NotBlocked(ops, name, t, m, op);
      InsertKeepsOrder(ops, t, d);
      RepresentsAdd(ops, name, Contents(t.buckets), m, d);
    }
  }

  lemma FindRefines<D(!new), N>(ops: Ops<D>, name: D -> N, t: Table<D>, m: map<N, D>, d: D)
    requires Good(ops, name, t, m)
    ensures Good(ops, name, AfterFind(ops, t, d), m)
  {
    FindKeeps(ops, t, d);
    FindOrdered(ops, t, d);
  }

  lemma YankRefines<D(!new), N>(ops: Ops<D>, name: D -> N, t: Table<D>, m: map<N, D>, d: D)
    requires GoodOps(ops) && Names(ops, name) && Good(ops, name, t, m)
    ensures Good(ops, name, AfterYank(ops, t, d), m - {name(d)})
  {
    FoundIsLookup(ops, name, t, m, d);
    YankKeeps(ops, t, d);
    PutKeepsOrder(ops, t, d);
    YankedItems(ops, name, Contents(t.buckets), Contents(AfterYank(ops, t, d).buckets), m, name(d), Found(ops, t, d));
  }

  lemma YankedItems<D(!new), N>(ops: Ops<D>, name: D -> N, items: multiset<Item<D>>, items': multiset<Item<D>>,
                                m: map<N, D>, n: N, f: Option<D>)
    requires Represents(ops, name, items, m)
    requires f == if n in m then Some(m[n]) else None
    requires if f.Some? then items' + multiset{ops.ItemOf(f.value)} == items else items' == items
    ensures Represents(ops, name, items', m - {n})
  {
    if n in m {
      RepresentsYank(ops, name, items, items', m, n);
    } else {
      assert m - {n} == m;
    }
  }

  lemma ReplaceRefines<D(!new), N>(ops: Ops<D>, name: D -> N, t: Table<D>, m: map<N, D>, op: Op<D>)
    requires GoodOps(ops) && Names(ops, name) && Good(ops, name, t, m)
    requires op.Replace? && Allowed(ops, name, m, op)
    ensures Replaced(ops, t, op.d)
    ensures Good(ops, name, AfterReplace(ops, t, op.d), m[name(op.d) := op.d])
  {
    var d, n := op.d, name(op.d);
    FoundIsLookup(ops, name, t, m, d);
    if n in m {
      ReplaceKeeps(ops, t, d);
      PutKeepsOrder(ops, t, d);
      RepresentsSwap(ops, name, Contents(t.buckets), Contents(AfterReplace(ops, t, d).buckets), m, d);
    } else {
      FindRefines(ops, name, t, m, d);
      InsertRefines(ops, name, AfterFind(ops, t, d), m, op);
    }
  }

  // One operation on the table is the same operation on the map.
  lemma StepRefines<D(!new), N>(ops: Ops<D>, name: D -> N, t: Table<D>, m: map<N, D>, op: Op<D>)
    requires GoodOps(ops) && Names(ops, name) && Good(ops, name, t, m) && Allowed(ops, name, m, op)
    ensures Step(ops, t, op).1 == MapStep(name, m, op).1
    ensures Good(ops, name, Step(ops, t, op).0, MapStep(name, m, op).0)
  {
    FoundIsLookup(ops, name, t, m, op.d);
    match op {
      case Insert(d) => InsertRefines(ops, name, t, m, op);
      case Replace(d) => ReplaceRefines(ops, name, t, m, op);
      case Yank(d) => YankRefines(ops, name, t, m, d);
      case FindData(d) => FindRefines(ops, name, t, m, d);
    }
  }

  ghost predicate AllowedRun<D, N>(ops: Ops<D>, name: D -> N, m: map<N, D>, run: seq<Op<D>>)
    decreases |run|
  {
    run == [] || (Allowed(ops, name, m, run[0]) && AllowedRun(ops, name, MapStep(name, m, run[0]).0, run[1..]))
  }

  ghost function MapRun<D, N>(name: D -> N, m: map<N, D>, run: seq<Op<D>>): (map<N, D>, seq<Out<D>>)
    decreases |run|
  {
    if run == [] then (m, [])
    else
      var s := MapStep(name, m, run[0]);
      var r := MapRun(name, s.0, run[1..]);
      (r.0, [s.1] + r.1)
  }

  // The table after a run and the outputs; None if a step would leave the sizes a C int can hold.
  ghost function TableRun<D>(ops: Ops<D>, t: Table<D>, run: seq<Op<D>>): Option<(Table<D>, seq<Out<D>>)>
    decreases |run|
  {
    if !Shape(t) then None
    else if run == [] then Some((t, []))
    else
      var s := Step(ops, t, run[0]);
      match TableRun(ops, s.0, run[1..])
      case None => None
      case Some(r) => Some((r.0, [s.1] + r.1))
  }

  // Every run on the table succeeds and gives the outputs of the same run on the map.
  lemma {:induction false} RunRefines<D(!new), N>(ops: Ops<D>, name: D -> N, t: Table<D>, m: map<N, D>, run: seq<Op<D>>)
    requires GoodOps(ops) && Names(ops, name) && Good(ops, name, t, m) && AllowedRun(ops, name, m, run)
    ensures var r := TableRun(ops, t, run);
      && r.Some?
      && r.value.1 == MapRun(name, m, run).1
      && Good(ops, name, r.value.0, MapRun(name, m, run).0)
    decreases |run|
  {
    if run != [] {
      StepRefines(ops, name, t, m, run[0]);
      RunRefines(ops, name, Step(ops, t, run[0]).0, MapStep(name, m, run[0]).0, run[1..]);
    }
  }

  // After each insertion or replacement the item that the map now has can be found.
  ghost predicate FoundAfterEach<D, N>(ops: Ops<D>, name: D -> N, t: Table<D>, m: map<N, D>, run: seq<Op<D>>)
    decreases |run|
  {
    Shape(t) && (run == [] || (
      var t', m' := Step(ops, t, run[0]).0, MapStep(name, m, run[0]).0;
      FoundAfter(ops, name, t', m', run[0]) && FoundAfterEach(ops, name, t', m', run[1..])))
  }

  ghost predicate FoundAfter<D, N>(ops: Ops<D>, name: D -> N, t: Table<D>, m: map<N, D>, op: Op<D>) {
    op.Insert? || op.Replace? ==>
      Shape(t) && name(op.d) in m && Found(ops, t, op.d) == Some(m[name(op.d)])
  }

  lemma StepCount<D, N>(name: D -> N, m: map<N, D>, op: Op<D>)
    ensures |MapStep(name, m, op).0| <= |m| + 1
  {
    var m' := MapStep(name, m, op).0;
    assert m'.Keys <= m.Keys + {name(op.d)};
    CardinalityMonotone(m'.Keys, m.Keys + {name(op.d)});
  }

  // A new item that is larger than an item with its hash is not found after it has been inserted.
  lemma NotAllowedLost<D(!new), N>(ops: Ops<D>, name: D -> N, t: Table<D>, m: map<N, D>, op: Op<D>)
    requires GoodOps(ops) && Names(ops, name) && Good(ops, name, t, m)
    requires |m| + 1 < MAX_ELEMENTS && !Allowed(ops, name, m, op)
    ensures !FoundAfter(ops, name, Step(ops, t, op).0, MapStep(name, m, op).0, op)
  {
    var d := op.d;
    var n :| n in m && ops.hash(m[n]) == ops.hash(d) && ops.Cmp(d, m[n]) > 0;
    FoundIsLookup(ops, name, t, m, d);
    if op.Replace? {
      FindRefines(ops, name, t, m, d);
      InsertLost(ops, name, AfterFind(ops, t, d), m, d, n);
    } else {
      InsertLost(ops, name, t, m, d, n);
    }
  }

  lemma InsertLost<D(!new), N>(ops: Ops<D>, name: D -> N, t: Table<D>, m: map<N, D>, d: D, n: N)
    requires GoodOps(ops) && Names(ops, name) && Good(ops, name, t, m) && |m| + 1 < MAX_ELEMENTS
    requires name(d) !in m && n in m && ops.hash(m[n]) == ops.hash(d) && ops.Cmp(d, m[n]) > 0
    ensures Shape(AfterInsert(ops, t, d)) ==> Found(ops, AfterInsert(ops, t, d), d).None?
  {
    FoundIsLookup(ops, name, t, m, d);
    InsertFailsIff(ops, t, d);
    assert ops.ItemOf(m[n]) in Contents(t.buckets);
    assert Blocked(ops, t, d);
    InsertFindableIff(ops, t, d);
  }

  // Up to the size bound, the runs that RunRefines is about are exactly those in which every item that
  // is inserted or replaced can be found afterwards.
  lemma {:induction false} AllowedRunIff<D(!new), N>(ops: Ops<D>, name: D -> N, t: Table<D>, m: map<N, D>, run: seq<Op<D>>)
    requires GoodOps(ops) && Names(ops, name) && Good(ops, name, t, m) && |m| + |run| < MAX_ELEMENTS
    ensures AllowedRun(ops, name, m, run) <==> FoundAfterEach(ops, name, t, m, run)
    decreases |run|
  {
    if run == [] {
    } else if !Allowed(ops, name, m, run[0]) {
      NotAllowedLost(ops, name, t, m, run[0]);
    } else {
      var t', m' := Step(ops, t, run[0]).0, MapStep(name, m, run[0]).0;
      StepRefines(ops, name, t, m, run[0]);
      StepCount(name, m, run[0]);
      FoundIsLookup(ops, name, t', m', run[0].d);
      AllowedRunIff(ops, name, t', m', run[1..]);
    }
  }

  // num_elements is the size of the map, and stays below 2.5 times the number of buckets.
  lemma GoodCount<D(!new), N>(ops: Ops<D>, name: D -> N, t: Table<D>, m: map<N, D>)
    requires Good(ops, name, t, m)
    ensures t.count == |m| && 2 * t.count < 5 * |t.buckets|
  {
    NextGrowDoubles(t.log);
  }

  // Without a comparison function the table is a map from hashes to items, for every run.
  lemma RunWithoutCmp<D(!new)>(ops: Ops<D>, run: seq<Op<D>>)
    requires ops.cmp.None? && |run| < MAX_ELEMENTS
    ensures var r := TableRun(ops, Create(), run);
      && r.Some?
      && r.value.1 == MapRun(ops.hash, map[], run).1
      && r.value.0.count == |MapRun(ops.hash, map[], run).0|
      && 2 * r.value.0.count < 5 * |r.value.0.buckets|
  {
    CreateGood(ops);
    AllAllowed(ops, map[], run);
    RunRefines(ops, ops.hash, Create(), map[], run);
    GoodCount(ops, ops.hash, TableRun(ops, Create(), run).value.0, MapRun(ops.hash, map[], run).0);
  }

  lemma CreateGood<D(!new)>(ops: Ops<D>)
    requires ops.cmp.None?
    ensures GoodOps(ops) && Names(ops, ops.hash)
    ensures Good(ops, ops.hash, Create(), map[])
  {
    CreateValid(ops);
  }

  lemma {:induction false} AllAllowed<D>(ops: Ops<D>, m: map<Key, D>, run: seq<Op<D>>)
    requires ops.cmp.None? && |m| + |run| < MAX_ELEMENTS
    ensures AllowedRun(ops, ops.hash, m, run)
    decreases |run|
  {
    if run != [] {
      var m' := MapStep(ops.hash, m, run[0]).0;
      StepCount(ops.hash, m, run[0]);
      AllAllowed(ops, m', run[1..]);
    }
  }

  lemma {:induction false} CardinalityMonotone<T>(a: set<T>, b: set<T>)
    requires a <= b
    ensures |a| <= |b|
  {
    if x :| x in a {
      CardinalityMonotone(a - {x}, b - {x});
    }
  }
}
