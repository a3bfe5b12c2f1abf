// The split-ordered hash table as a value: which bucket a hash lives in, what splitting a bucket
// does, and the invariant that every operation keeps.
module SplitTable {
  import opened Bits
  import opened Options
  import opened SplitOrder

  datatype Item<+D> = Item(key: Key, data: D)

  // A bucket is None until it is first touched (a NULL pointer); Some([]) is an empty chain.
  type Buckets<+D> = seq<Option<seq<Item<D>>>>

  // log is the binary logarithm of num_buckets; count is num_elements.
  datatype Table<+D> = Table(log: nat, buckets: Buckets<D>, count: nat)

  // next_grow has to stay inside a C int, so a table has at most 2^29 buckets.
  const MAX_LOG: nat := 29

  // Chains are sorted by the reversed hash.
  ghost function Position(key: Key): nat {
    Rev(key, WordBits())
  }

  function Chain<D>(bs: Buckets<D>, b: nat): seq<Item<D>>
    requires b < |bs|
  {
    if bs[b].Some? then bs[b].value else []
  }

  // The bucket that a hash belongs to once every bucket is filled: `key & mask`.
  function Slot(key: Key, log: nat): (e: nat)
    ensures e < Pow2(log)
  {
    Low(key, log)
  }

  // The nearest filled ancestor of bucket e.
  function Home<D>(bs: Buckets<D>, e: nat): (h: nat)
    requires e < |bs|
    ensures h <= e
  {
    if e == 0 || bs[e].Some? then e else Home(bs, Parent(e))
  }

  ghost predicate Shape<D>(t: Table<D>) {
    && 6 <= t.log <= MAX_LOG
    && |t.buckets| == Pow2(t.log)
    && t.buckets[0].Some?
  }

  // Every item sits in the nearest filled ancestor of its bucket.
  ghost predicate Placed<D>(t: Table<D>)
    requires Shape(t)
  {
    forall b, i :: 0 <= b < |t.buckets| && 0 <= i < |Chain(t.buckets, b)|
      ==> Home(t.buckets, Slot(Chain(t.buckets, b)[i].key, t.log)) == b
  }

  ghost predicate Sorted<D>(c: seq<Item<D>>) {
    forall i, j :: 0 <= i < j < |c| ==> Position(c[i].key) <= Position(c[j].key)
  }

  ghost predicate Inv<D>(t: Table<D>) {
    && Shape(t)
    && Placed(t)
    && forall b :: 0 <= b < |t.buckets| ==> Sorted(Chain(t.buckets, b))
  }

  // ---------- all the items of a table ----------

  ghost function Contents<D>(bs: Buckets<D>): multiset<Item<D>> {
    if bs == [] then multiset{}
    else Contents(bs[..|bs| - 1]) + multiset(Chain(bs, |bs| - 1))
  }

  lemma {:induction false} ContentsUpdate<D>(bs: Buckets<D>, bs': Buckets<D>, b: nat)
    requires b < |bs| == |bs'| && bs' == bs[b := bs'[b]]
    ensures Contents(bs') + multiset(Chain(bs, b)) == Contents(bs) + multiset(Chain(bs', b))
  {
    var n := |bs| - 1;
    if b == n {
      assert bs'[..n] == bs[..n];
      MultisetLast(Contents(bs[..n]), multiset(Chain(bs, n)), multiset(Chain(bs', n)));
    } else {
      assert bs'[..n] == bs[..n][b := bs'[b]];
      ContentsUpdate(bs[..n], bs'[..n], b);
      assert Chain(bs[..n], b) == Chain(bs, b) && Chain(bs'[..n], b) == Chain(bs', b) && Chain(bs', n) == Chain(bs, n);
      MultisetSwap(Contents(bs[..n]), Contents(bs'[..n]), multiset(Chain(bs, n)),
                   multiset(Chain(bs, b)), multiset(Chain(bs', b)));
    }
  }

  lemma MultisetsEqual<T>(a: multiset<T>, b: multiset<T>)
    requires forall x :: a[x] == b[x]
    ensures a == b
  {
  }

  lemma MultisetLast<T>(a: multiset<T>, c: multiset<T>, c': multiset<T>)
    ensures (a + c') + c == (a + c) + c'
  {
  }

  lemma MultisetSwap<T>(a: multiset<T>, a': multiset<T>, more: multiset<T>, c: multiset<T>, c': multiset<T>)
    requires a' + c == a + c'
    ensures (a' + more) + c == (a + more) + c'
  {
    forall x
      ensures ((a' + more) + c)[x] == ((a + more) + c')[x]
    {
      assert (a' + c)[x] == (a + c')[x];
    }
    MultisetsEqual((a' + more) + c, (a + more) + c');
  }

  lemma {:induction false} ContentsExtend<D>(bs: Buckets<D>, n: nat)
    ensures Contents(bs + seq(n, _ => None)) == Contents(bs)
  {
    var more: Buckets<D> := seq(n, _ => None);
    if n == 0 {
      assert bs + more == bs;
    } else {
      ContentsExtend(bs, n - 1);
      assert (bs + more)[..|bs| + n - 1] == bs + seq(n - 1, _ => None);
    }
  }

  lemma {:induction false} ContentsMember<D>(bs: Buckets<D>, b: nat, i: nat)
    requires b < |bs| && i < |Chain(bs, b)|
    ensures Chain(bs, b)[i] in Contents(bs)
  {
    if b == |bs| - 1 {
      assert Chain(bs, b)[i] in multiset(Chain(bs, b));
    } else {
      ContentsMember(bs[..|bs| - 1], b, i);
    }
  }

  // When only chain h can hold x, its copies are those in chain h.
  lemma {:induction false} ContentsCount<D>(bs: Buckets<D>, x: Item<D>, h: nat)
    requires forall b :: 0 <= b < |bs| && b != h ==> x !in Chain(bs, b)
    ensures Contents(bs)[x] == if h < |bs| then multiset(Chain(bs, h))[x] else 0
  {
    if bs != [] {
      var n := |bs| - 1;
      forall b | 0 <= b < n && b != h
        ensures x !in Chain(bs[..n], b)
      {
        assert x !in Chain(bs, b);
      }
      ContentsCount(bs[..n], x, h);
      if n != h {
        assert x !in Chain(bs, n);
      }
    }
  }

  lemma PlacedCount<D>(t: Table<D>, x: Item<D>)
    requires Shape(t) && Placed(t)
    ensures Contents(t.buckets)[x]
         == multiset(Chain(t.buckets, Home(t.buckets, Slot(x.key, t.log))))[x]
  {
    var h := Home(t.buckets, Slot(x.key, t.log));
    forall b | 0 <= b < |t.buckets| && b != h
      ensures x !in Chain(t.buckets, b)
    {
      var c := Chain(t.buckets, b);
      assert forall i :: 0 <= i < |c| ==> Home(t.buckets, Slot(c[i].key, t.log)) == b;
    }
    ContentsCount(t.buckets, x, h);
  }

  // ---------- splitting a bucket ----------

  // The items of a chain that belong to bucket b.
  function Select<D>(c: seq<Item<D>>, log: nat, b: nat): seq<Item<D>> {
    if c == [] then []
    else
      var rest := Select(c[..|c| - 1], log, b);
      if Slot(c[|c| - 1].key, log) == b then rest + [c[|c| - 1]] else rest
  }

  lemma {:induction false} SelectCount<D>(c: seq<Item<D>>, log: nat, b: nat, x: Item<D>)
    ensures multiset(Select(c, log, b))[x] == if Slot(x.key, log) == b then multiset(c)[x] else 0
  {
    if c != [] {
      SelectCount(c[..|c| - 1], log, b, x);
      assert c == c[..|c| - 1] + [c[|c| - 1]];
    }
  }

  lemma {:induction false} SelectSorted<D>(c: seq<Item<D>>, log: nat, b: nat)
    requires Sorted(c)
    ensures Sorted(Select(c, log, b))
    ensures forall i :: 0 <= i < |Select(c, log, b)| ==>
              Slot(Select(c, log, b)[i].key, log) == b && Select(c, log, b)[i] in c
  {
    if c != [] {
      SelectSorted(c[..|c| - 1], log, b);
    }
  }

  lemma {:induction false} SelectNone<D>(c: seq<Item<D>>, log: nat, b: nat)
    requires forall i :: 0 <= i < |c| ==> Slot(c[i].key, log) != b
    ensures Select(c, log, b) == []
  {
    if c != [] {
      SelectNone(c[..|c| - 1], log, b);
    }
  }

  // What bucket p and the buckets split out of it hold after p's chain has been walked.
  function SplitBucket<D>(t: Table<D>, p: nat, b: nat): Option<seq<Item<D>>>
    requires p < |t.buckets| && b < |t.buckets|
  {
    var s := Select(Chain(t.buckets, p), t.log, b);
    if b == p || s != [] then Some(s) else t.buckets[b]
  }

  function Split<D>(t: Table<D>, p: nat): (r: Table<D>)
    requires p < |t.buckets|
  {
    t.(buckets := seq(|t.buckets|, b requires 0 <= b < |t.buckets| => SplitBucket(t, p, b)))
  }

  function Fill<D>(t: Table<D>, e: nat): Table<D>
    requires e < |t.buckets|
  {
    if t.buckets[e].None? then t.(buckets := t.buckets[e := Some([])]) else t
  }

  // fr_hash_table_fixup: fill the parent first, split its chain, then fill the bucket itself.
  function Fixup<D>(t: Table<D>, e: nat): (r: Table<D>)
    requires Shape(t) && e < |t.buckets|
    ensures r.log == t.log && |r.buckets| == |t.buckets| && r.count == t.count
    ensures r.buckets[e].Some? && r.buckets[0].Some?
    ensures forall b :: 0 <= b < |t.buckets| && t.buckets[b].Some? ==> r.buckets[b].Some?
    decreases e
  {
    var p := Parent(e);
    var t1 := if t.buckets[p].None? then Fixup(t, p) else t;
    Fill(Split(t1, p), e)
  }

  // The bucket that an operation on this hash works on, filled if it was not.
  function Touch<D>(t: Table<D>, e: nat): (r: Table<D>)
    requires Shape(t) && e < |t.buckets|
    ensures r.log == t.log && |r.buckets| == |t.buckets| && r.count == t.count
    ensures r.buckets[e].Some? && r.buckets[0].Some?
    ensures forall b :: 0 <= b < |t.buckets| && t.buckets[b].Some? ==> r.buckets[b].Some?
  {
    if t.buckets[e].None? then Fixup(t, e) else t
  }

  // Filling buckets whose home was p leaves every other home alone.
  lemma {:induction false} HomeUnchanged<D>(bs: Buckets<D>, bs': Buckets<D>, p: nat, e: nat)
    requires |bs| == |bs'| && e < |bs| && p < |bs|
    requires forall b :: 0 <= b < |bs| && bs[b].Some? ==> bs'[b].Some?
    requires forall b :: 0 <= b < |bs| && bs[b].None? && bs'[b].Some? ==> Home(bs, b) == p
    requires Home(bs, e) != p
    ensures Home(bs', e) == Home(bs, e)
    decreases e
  {
    if e == 0 || bs[e].Some? {
    } else {
      HomeUnchanged(bs, bs', p, Parent(e));
    }
  }

  lemma {:induction false} HomeFilled<D>(t: Table<D>, e: nat)
    requires Shape(t) && e < |t.buckets|
    ensures t.buckets[Home(t.buckets, e)].Some?
    decreases e
  {
    if t.buckets[e].None? {
      HomeFilled(t, Parent(e));
    }
  }

  // A bucket is filled by the split only if it was NULL and its home was p, and then it takes
  // all of its items out of p's chain.
  lemma SplitFills<D>(t: Table<D>, p: nat, b: nat)
    requires Inv(t) && p < |t.buckets| && b < |t.buckets| && b != p
    ensures t.buckets[b].Some? ==> SplitBucket(t, p, b) == t.buckets[b]
    ensures t.buckets[b].None? && SplitBucket(t, p, b).Some? ==> Home(t.buckets, b) == p
    ensures Home(t.buckets, b) != p ==> SplitBucket(t, p, b) == t.buckets[b]
  {
    var c := Chain(t.buckets, p);
    SelectSorted(c, t.log, b);
    var s := Select(c, t.log, b);
    if s != [] {
      assert s[0] in c;
      var i :| 0 <= i < |c| && c[i] == s[0];
      assert Home(t.buckets, Slot(c[i].key, t.log)) == p;
    }
  }

  ghost function SplitChain<D>(t: Table<D>, p: nat, b: nat): seq<Item<D>>
    requires p < |t.buckets| && b < |t.buckets|
  {
    if b == p || t.buckets[b].None? then Select(Chain(t.buckets, p), t.log, b) else Chain(t.buckets, b)
  }

  // t' is t with p's chain distributed over p and the NULL buckets below it.
  ghost predicate SplitOf<D>(t: Table<D>, p: nat, t': Table<D>)
    requires Shape(t) && p < |t.buckets|
  {
    && t'.log == t.log && |t'.buckets| == |t.buckets|
    && (forall b :: 0 <= b < |t.buckets| && t.buckets[b].Some? ==> t'.buckets[b].Some?)
    && (forall b :: 0 <= b < |t.buckets| && t.buckets[b].None? && t'.buckets[b].Some?
         ==> Home(t.buckets, b) == p)
    && (forall b :: 0 <= b < |t.buckets| ==>
         Chain(t'.buckets, b) == SplitChain(t, p, b))
  }

  // An item whose home was p is now in its own bucket, or nowhere.
  lemma SplitHome<D>(t: Table<D>, p: nat, t': Table<D>, x: Item<D>)
    requires Inv(t) && p < |t.buckets| && t.buckets[p].Some? && SplitOf(t, p, t')
    requires Home(t.buckets, Slot(x.key, t.log)) == p
    ensures x in Chain(t.buckets, p) ==> Home(t'.buckets, Slot(x.key, t.log)) == Slot(x.key, t.log)
  {
    var s := Slot(x.key, t.log);
    if x in Chain(t.buckets, p) {
      SelectCount(Chain(t.buckets, p), t.log, s, x);
      assert x in multiset(Select(Chain(t.buckets, p), t.log, s));
      assert Chain(t'.buckets, s) != [] || s == p;
    }
  }

  lemma SplitPlaces<D>(t: Table<D>, p: nat, t': Table<D>)
    requires Inv(t) && p < |t.buckets| && t.buckets[p].Some? && SplitOf(t, p, t')
    ensures Shape(t') && Placed(t')
  {
    forall b, i | 0 <= b < |t'.buckets| && 0 <= i < |Chain(t'.buckets, b)|
      ensures Home(t'.buckets, Slot(Chain(t'.buckets, b)[i].key, t.log)) == b
    {
      var x := Chain(t'.buckets, b)[i];
      if b == p || t.buckets[b].None? {
        SelectSorted(Chain(t.buckets, p), t.log, b);
        assert x in Chain(t.buckets, p);
        var j :| 0 <= j < |Chain(t.buckets, p)| && Chain(t.buckets, p)[j] == x;
        SplitHome(t, p, t', x);
      } else {
        assert Home(t.buckets, Slot(x.key, t.log)) == b;
        HomeUnchanged(t.buckets, t'.buckets, p, Slot(x.key, t.log));
      }
    }
  }

  // Split and fill is such a distribution.
  lemma SplitIsSplitOf<D>(t: Table<D>, p: nat, e: nat)
    requires Inv(t) && p < |t.buckets| && t.buckets[p].Some?
    requires e < |t.buckets| && Home(t.buckets, e) == p
    ensures SplitOf(t, p, Fill(Split(t, p), e))
  {
    var t' := Fill(Split(t, p), e);
    forall b | 0 <= b < |t.buckets|
      ensures t.buckets[b].Some? ==> t'.buckets[b].Some?
      ensures t.buckets[b].None? && t'.buckets[b].Some? ==> Home(t.buckets, b) == p
      ensures Chain(t'.buckets, b) == SplitChain(t, p, b)
    {
      if b != p {
        SplitFills(t, p, b);
      }
    }
  }

  lemma SplitCount<D>(t: Table<D>, p: nat, t': Table<D>, x: Item<D>)
    requires Inv(t) && p < |t.buckets| && t.buckets[p].Some? && SplitOf(t, p, t')
    ensures Contents(t'.buckets)[x] == Contents(t.buckets)[x]
  {
    var s := Slot(x.key, t.log);
    SplitPlaces(t, p, t');
    PlacedCount(t, x);
    PlacedCount(t', x);
    var h' := Home(t'.buckets, s);
    if Home(t.buckets, s) != p {
      HomeUnchanged(t.buckets, t'.buckets, p, s);
      HomeFilled(t, s);
    } else if x in Chain(t.buckets, p) {
      SplitHome(t, p, t', x);
      SelectCount(Chain(t.buckets, p), t.log, s, x);
      assert s == p || t.buckets[s].None?;
    } else {
      HomeNow(t, p, t', s);
      SelectCount(Chain(t.buckets, p), t.log, h', x);
    }
  }

  // A bucket whose home was p now has p, or a bucket filled from p, as its home.
  lemma {:induction false} HomeNow<D>(t: Table<D>, p: nat, t': Table<D>, e: nat)
    requires Shape(t) && p < |t.buckets| && e < |t.buckets| && SplitOf(t, p, t')
    requires Home(t.buckets, e) == p
    ensures Home(t'.buckets, e) == p || t.buckets[Home(t'.buckets, e)].None?
    decreases e
  {
    if e == 0 || t'.buckets[e].Some? {
    } else {
      HomeNow(t, p, t', Parent(e));
    }
  }

  lemma SplitSorted<D>(t: Table<D>, p: nat, t': Table<D>, b: nat)
    requires Inv(t) && p < |t.buckets| && b < |t.buckets| && SplitOf(t, p, t')
    ensures Sorted(Chain(t'.buckets, b))
  {
    SelectSorted(Chain(t.buckets, p), t.log, b);
    assert Sorted(Chain(t.buckets, b));
    assert Chain(t'.buckets, b) == SplitChain(t, p, b);
  }

  // Distributing a chain keeps the invariant; no item is lost or duplicated.
  lemma SplitOfKeeps<D>(t: Table<D>, p: nat, t': Table<D>)
    requires Inv(t) && p < |t.buckets| && t.buckets[p].Some? && SplitOf(t, p, t')
    ensures Inv(t')
    ensures Contents(t'.buckets) == Contents(t.buckets)
  {
    SplitPlaces(t, p, t');
    forall b | 0 <= b < |t.buckets|
      ensures Sorted(Chain(t'.buckets, b))
    {
      SplitSorted(t, p, t', b);
    }
    var before, after := Contents(t.buckets), Contents(t'.buckets);
    forall x
      ensures after[x] == before[x]
    {
      SplitCount(t, p, t', x);
    }
    MultisetsEqual(after, before);
  }

  lemma SplitKeeps<D>(t: Table<D>, p: nat, e: nat)
    requires Inv(t) && p < |t.buckets| && t.buckets[p].Some?
    requires e < |t.buckets| && Home(t.buckets, e) == p
    ensures Inv(Fill(Split(t, p), e))
    ensures Contents(Fill(Split(t, p), e).buckets) == Contents(t.buckets)
  {
    SplitIsSplitOf(t, p, e);
    SplitOfKeeps(t, p, Fill(Split(t, p), e));
  }

  // fixup keeps the invariant and moves items without losing or duplicating any.
  lemma {:induction false} FixupKeeps<D>(t: Table<D>, e: nat)
    requires Inv(t) && e < |t.buckets| && t.buckets[e].None?
    ensures Inv(Fixup(t, e))
    ensures Contents(Fixup(t, e).buckets) == Contents(t.buckets)
    decreases e
  {
    var p := Parent(e);
    if t.buckets[p].None? {
      FixupKeeps(t, p);
      var t1 := Fixup(t, p);
      if t1.buckets[e].None? {
        SplitKeeps(t1, p, e);
      } else {
        SplitKeeps(t1, p, p);
      }
    } else {
      SplitKeeps(t, p, e);
    }
  }

  lemma TouchKeeps<D>(t: Table<D>, e: nat)
    requires Inv(t) && e < |t.buckets|
    ensures Inv(Touch(t, e))
    ensures Contents(Touch(t, e).buckets) == Contents(t.buckets)
  {
    if t.buckets[e].None? {
      FixupKeeps(t, e);
    }
  }
}
