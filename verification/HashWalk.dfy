// Walking: the chain walk inside fixup, which cuts a sorted chain into the buckets its items belong
// to, and the walk and the iterator over a whole table, which split buckets as they go.
module HashWalk {
  import opened Sequences
  import opened SplitOrder
  import opened Options
  import opened SplitTable
  import opened HashSpec
  import Links

  // ---------- the chain walk of fixup ----------

  // The buckets after i nodes of p's chain: the run of nodes for bucket `here` started at s, and
  // everything from s on still hangs off that bucket.
  function WalkBucket<D>(t: Table<D>, p: nat, i: nat, s: nat, here: nat, b: nat): Option<seq<Item<D>>>
    requires p < |t.buckets| && b < |t.buckets| && s <= i <= |Chain(t.buckets, p)|
  {
    var c := Chain(t.buckets, p);
    var done := Select(c[..i], t.log, b);
    if b == here then Some(c[s..])
    else if b == p || done != [] then Some(done)
    else t.buckets[b]
  }

  ghost predicate Run<D>(t: Table<D>, p: nat, i: nat, s: nat, here: nat)
    requires p < |t.buckets|
  {
    var c := Chain(t.buckets, p);
    && s <= i <= |c| && here < |t.buckets|
    && (i == 0 ==> here == p)
    && (i > 0 ==> s < i)
    && (forall j :: s <= j < i ==> Slot(c[j].key, t.log) == here)
    && Select(c[..i], t.log, here) == c[s..i]
  }

  lemma WalkStart<D>(t: Table<D>, p: nat, b: nat)
    requires p < |t.buckets| && b < |t.buckets| && t.buckets[p].Some?
    ensures Run(t, p, 0, 0, p)
    ensures WalkBucket(t, p, 0, 0, p, b) == t.buckets[b]
  {
  }

  lemma SelectNext<D>(c: seq<Item<D>>, log: nat, b: nat, i: nat)
    requires i < |c|
    ensures Select(c[..i + 1], log, b)
         == if Slot(c[i].key, log) == b then Select(c[..i], log, b) + [c[i]] else Select(c[..i], log, b)
  {
    assert c[..i + 1][..i] == c[..i];
  }

  // A node of the current run leaves all links alone.
  lemma WalkSame<D>(t: Table<D>, p: nat, i: nat, s: nat, here: nat, b: nat)
    requires p < |t.buckets| && b < |t.buckets| && Run(t, p, i, s, here)
    requires i < |Chain(t.buckets, p)| && Slot(Chain(t.buckets, p)[i].key, t.log) == here
    ensures Run(t, p, i + 1, s, here)
    ensures WalkBucket(t, p, i + 1, s, here, b) == WalkBucket(t, p, i, s, here, b)
  {
    var c := Chain(t.buckets, p);
    SelectNext(c, t.log, b, i);
    SelectNext(c, t.log, here, i);
    SliceNext(c, s, i);
  }

  lemma SliceNext<X>(c: seq<X>, s: nat, i: nat)
    requires s <= i < |c|
    ensures c[s..i + 1] == c[s..i] + [c[i]]
  {
  }

  // A bucket comes before all its descendants in the order of the chains.
  lemma {:induction false} HomeFirst<D>(t: Table<D>, e: nat)
    requires Shape(t) && e < |t.buckets|
    ensures Home(t.buckets, e) == e || Rev(Home(t.buckets, e), t.log) < Rev(e, t.log)
    decreases e
  {
    if e == 0 || t.buckets[e].Some? {
    } else {
      HomeFirst(t, Parent(e));
      ParentFirst(e, t.log);
    }
  }

  // In a sorted chain the nodes of bucket p come first, and no bucket has a second run.
  lemma FreshRun<D>(t: Table<D>, p: nat, i: nat, s: nat, here: nat)
    requires Inv(t) && p < |t.buckets| && t.buckets[p].Some? && Run(t, p, i, s, here)
    requires i < |Chain(t.buckets, p)| && Slot(Chain(t.buckets, p)[i].key, t.log) != here
    ensures var r := Slot(Chain(t.buckets, p)[i].key, t.log);
      r != p && t.buckets[r].None? && Select(Chain(t.buckets, p)[..i], t.log, r) == []
  {
    hide Select;
    var c := Chain(t.buckets, p);
    var r := Slot(c[i].key, t.log);
    assert Sorted(c);
    assert Home(t.buckets, r) == p;
    if i > 0 {
      var k := Slot(c[i - 1].key, t.log);
      assert k == here && Home(t.buckets, k) == p;
      HomeFirst(t, k);
      assert Position(c[i - 1].key) <= Position(c[i].key);
      SortedByBucket(c[i - 1].key, c[i].key, t.log);
      forall j | 0 <= j < i
        ensures Slot(c[j].key, t.log) != r
      {
        assert Position(c[j].key) <= Position(c[i - 1].key);
        if Slot(c[j].key, t.log) == r {
          SameBucketContiguous(c[j].key, c[i - 1].key, c[i].key, t.log);
        }
      }
    }
    SelectNone(c[..i], t.log, r);
  }

  // The first node of another bucket: cut the chain before it and hang the rest off that bucket,
  // which was NULL until now.
  lemma WalkCut<D>(t: Table<D>, p: nat, i: nat, s: nat, here: nat, b: nat)
    requires Inv(t) && p < |t.buckets| && t.buckets[p].Some? && Run(t, p, i, s, here) && b < |t.buckets|
    requires i < |Chain(t.buckets, p)| && Slot(Chain(t.buckets, p)[i].key, t.log) != here
    ensures var c, r := Chain(t.buckets, p), Slot(Chain(t.buckets, p)[i].key, t.log);
      && Run(t, p, i + 1, i, r)
      && WalkBucket(t, p, i, s, here, r) == None
      && WalkBucket(t, p, i + 1, i, r, b)
         == if b == r then Some(c[i..]) else if b == here then Some(c[s..i]) else WalkBucket(t, p, i, s, here, b)
  {
    var c := Chain(t.buckets, p);
    var r := Slot(c[i].key, t.log);
    FreshRun(t, p, i, s, here);
    SelectNext(c, t.log, b, i);
    SelectNext(c, t.log, r, i);
    SelectNext(c, t.log, here, i);
  }

  // When the chain is exhausted its nodes are where the split puts them.
  lemma WalkEnd<D>(t: Table<D>, p: nat, s: nat, here: nat, b: nat)
    requires p < |t.buckets| && b < |t.buckets| && t.buckets[p].Some?
    requires Run(t, p, |Chain(t.buckets, p)|, s, here)
    ensures WalkBucket(t, p, |Chain(t.buckets, p)|, s, here, b) == SplitBucket(t, p, b)
  {
    var c := Chain(t.buckets, p);
    assert c[..|c|] == c;
    assert c[s..|c|] == c[s..];
  }

  // The table m is t after the walk has passed i nodes of p's chain.
  ghost predicate Walked<D>(t: Table<D>, m: Table<D>, p: nat, i: nat, s: nat, here: nat)
    requires p < |t.buckets|
  {
    && Run(t, p, i, s, here)
    && m == t.(buckets := m.buckets) && |m.buckets| == |t.buckets|
    && forall b :: 0 <= b < |t.buckets| ==> m.buckets[b] == WalkBucket(t, p, i, s, here, b)
  }

  lemma WalkedStart<D>(t: Table<D>, p: nat)
    requires p < |t.buckets| && t.buckets[p].Some?
    ensures Walked(t, t, p, 0, 0, p)
  {
    forall b | 0 <= b < |t.buckets|
      ensures t.buckets[b] == WalkBucket(t, p, 0, 0, p, b)
    {
      WalkStart(t, p, b);
    }
    WalkStart(t, p, p);
  }

  lemma WalkedSame<D>(t: Table<D>, m: Table<D>, p: nat, i: nat, s: nat, here: nat)
    requires p < |t.buckets| && Walked(t, m, p, i, s, here)
    requires i < |Chain(t.buckets, p)| && Slot(Chain(t.buckets, p)[i].key, t.log) == here
    ensures Walked(t, m, p, i + 1, s, here)
  {
    forall b | 0 <= b < |t.buckets|
      ensures m.buckets[b] == WalkBucket(t, p, i + 1, s, here, b)
    {
      WalkSame(t, p, i, s, here, b);
    }
    WalkSame(t, p, i, s, here, p);
  }

  lemma CutPieces<X>(c: seq<X>, i: nat, s: nat)
    requires s <= i <= |c|
    ensures c[s..][..i - s] == c[s..i] && c[s..][i - s..] == c[i..]
  {
  }

  lemma CutBucket<D>(bs: Buckets<D>, c: seq<Item<D>>, i: nat, s: nat, here: nat, r: nat, b: nat)
    requires s <= i <= |c| && here < |bs| && r < |bs| && b < |bs| && r != here && bs[here] == Some(c[s..])
    ensures Links.CutBuckets(bs, here, i - s, r)[b]
         == if b == r then Some(c[i..]) else if b == here then Some(c[s..i]) else bs[b]
  {
    CutPieces(c, i, s);
  }

  // Cutting before node i, the first node of bucket r.
  lemma WalkedCut<D>(t: Table<D>, m: Table<D>, p: nat, i: nat, s: nat, here: nat, r: nat)
    requires Inv(t) && p < |t.buckets| && t.buckets[p].Some? && Walked(t, m, p, i, s, here)
    requires i < |Chain(t.buckets, p)| && r == Slot(Chain(t.buckets, p)[i].key, t.log) != here
    ensures m.buckets[r] == None && m.buckets[here] == Some(Chain(t.buckets, p)[s..])
    ensures Walked(t, m.(buckets := Links.CutBuckets(m.buckets, here, i - s, r)), p, i + 1, i, r)
  {
    hide Sorted, Placed, Slot;
    WalkCut(t, p, i, s, here, r);
    assert m.buckets[r] == WalkBucket(t, p, i, s, here, r);
    assert m.buckets[here] == WalkBucket(t, p, i, s, here, here);
    var cut := Links.CutBuckets(m.buckets, here, i - s, r);
    forall b | 0 <= b < |t.buckets|
      ensures cut[b] == WalkBucket(t, p, i + 1, i, r, b)
    {
      assert m.buckets[b] == WalkBucket(t, p, i, s, here, b);
      WalkCut(t, p, i, s, here, b);
      CutBucket(m.buckets, Chain(t.buckets, p), i, s, here, r, b);
    }
  }

  lemma WalkedEnd<D>(t: Table<D>, m: Table<D>, p: nat, s: nat, here: nat)
    requires p < |t.buckets| && t.buckets[p].Some? && Walked(t, m, p, |Chain(t.buckets, p)|, s, here)
    ensures m == Split(t, p)
  {
    forall b | 0 <= b < |t.buckets|
      ensures m.buckets[b] == SplitBucket(t, p, b)
    {
      WalkEnd(t, p, s, here, b);
    }
  }

  // ---------- walking the whole table ----------

  // fr_hash_table_walk from bucket i - 1 down, when the callback never stops it.
  function WalkTable<D>(t: Table<D>, i: nat): (r: Table<D>)
    requires Shape(t) && i <= |t.buckets|
    ensures Shape(r) && |r.buckets| == |t.buckets|
    decreases i
  {
    if i == 0 then t else WalkTable(Touch(t, i - 1), i - 1)
  }

  function WalkItems<D>(t: Table<D>, i: nat): seq<Item<D>>
    requires Shape(t) && i <= |t.buckets|
    decreases i
  {
    if i == 0 then []
    else
      var t1 := Touch(t, i - 1);
      Chain(t1.buckets, i - 1) + WalkItems(t1, i - 1)
  }

  // Filling a bucket changes no filled bucket above it.
  lemma {:induction false} FixupFrame<D>(t: Table<D>, e: nat, b: nat)
    requires Inv(t) && e < b < |t.buckets| && t.buckets[e].None? && t.buckets[b].Some?
    ensures Fixup(t, e).buckets[b] == t.buckets[b]
    decreases e
  {
    hide Placed, Sorted, Chain;
    var p := Parent(e);
    if t.buckets[p].None? {
      FixupFrame(t, p, b);
      FixupKeeps(t, p);
      SplitFills(Fixup(t, p), p, b);
    } else {
      SplitFills(t, p, b);
    }
  }

  lemma {:induction false} ContentsPrepend<D>(first: Option<seq<Item<D>>>, bs: Buckets<D>)
    ensures Contents([first] + bs) == multiset(if first.Some? then first.value else []) + Contents(bs)
  {
    var all := [first] + bs;
    if bs == [] {
      assert all[..0] == [];
      assert Chain(all, 0) == if first.Some? then first.value else [];
    } else {
      var n := |bs| - 1;
      ContentsPrepend(first, bs[..n]);
      assert all[..n + 1] == [first] + bs[..n];
      assert Chain(all, n + 1) == Chain(bs, n);
    }
  }

  ghost predicate FilledFrom<D>(t: Table<D>, i: nat) {
    forall b :: i <= b < |t.buckets| ==> t.buckets[b].Some?
  }

  lemma TouchFilled<D>(t: Table<D>, e: nat)
    requires Shape(t) && e < |t.buckets| && FilledFrom(t, e + 1)
    ensures FilledFrom(Touch(t, e), e)
  {
  }

  // Filling bucket e, when all buckets above are filled, moves items out of lower buckets only.
  lemma TouchFromAbove<D>(t: Table<D>, e: nat)
    requires Inv(t) && e < |t.buckets| && FilledFrom(t, e + 1)
    ensures Touch(t, e).buckets[e + 1..] == t.buckets[e + 1..]
  {
    forall b | e < b < |t.buckets|
      ensures Touch(t, e).buckets[b] == t.buckets[b]
    {
      if t.buckets[e].None? {
        FixupFrame(t, e, b);
      }
    }
  }

  lemma ContentsFrom<D>(bs: Buckets<D>, e: nat)
    requires e < |bs|
    ensures Contents(bs[e..]) == multiset(Chain(bs, e)) + Contents(bs[e + 1..])
  {
    assert bs[e..] == [bs[e]] + bs[e + 1..];
    ContentsPrepend(bs[e], bs[e + 1..]);
  }

  lemma {:induction false} WalkFills<D>(t: Table<D>, i: nat)
    requires Inv(t) && i <= |t.buckets| && FilledFrom(t, i)
    ensures Inv(WalkTable(t, i)) && Contents(WalkTable(t, i).buckets) == Contents(t.buckets)
    ensures FilledFrom(WalkTable(t, i), 0)
    decreases i
  {
    if i == 0 {
    } else {
      TouchKeeps(t, i - 1);
      TouchFilled(t, i - 1);
      var t1 := Touch(t, i - 1);
      assert WalkTable(t, i) == WalkTable(t1, i - 1);
      WalkFills(t1, i - 1);
    }
  }

  // The walk from i down visits what is not in the buckets from i up.
  lemma {:induction false} WalkVisits<D>(t: Table<D>, i: nat)
    requires Inv(t) && i <= |t.buckets| && FilledFrom(t, i)
    ensures multiset(WalkItems(t, i)) + Contents(t.buckets[i..]) == Contents(t.buckets)
    decreases i
  {
    hide Fixup, Placed, Sorted, FilledFrom, Contents, Chain;
    if i == 0 {
      assert t.buckets[0..] == t.buckets;
    } else {
      var t1 := Touch(t, i - 1);
      TouchKeeps(t, i - 1);
      TouchFilled(t, i - 1);
      TouchFromAbove(t, i - 1);
      ContentsFrom(t1.buckets, i - 1);
      WalkVisits(t1, i - 1);
      AddVisits(Chain(t1.buckets, i - 1), WalkItems(t1, i - 1), Contents(t.buckets[i..]),
                Contents(t1.buckets[i - 1..]), Contents(t.buckets));
    }
  }

  lemma AddVisits<T>(here: seq<T>, below: seq<T>, above: multiset<T>, rest: multiset<T>, all: multiset<T>)
    requires multiset(below) + rest == all && rest == multiset(here) + above
    ensures multiset(here + below) + above == all
  {
  }

  // A full walk visits every item exactly once and leaves no bucket NULL.
  lemma FullWalk<D>(t: Table<D>)
    requires Inv(t)
    ensures multiset(WalkItems(t, |t.buckets|)) == Contents(t.buckets)
    ensures var t' := WalkTable(t, |t.buckets|);
      && Inv(t') && Contents(t'.buckets) == Contents(t.buckets)
      && FilledFrom(t', 0)
  {
    WalkVisits(t, |t.buckets|);
    WalkFills(t, |t.buckets|);
    assert t.buckets[|t.buckets|..] == [];
  }

  // After a full walk, lookups no longer change the table.
  lemma LookupsAreReadOnly<D>(ops: Ops<D>, t: Table<D>, d: D)
    requires Inv(t)
    ensures var t' := WalkTable(t, |t.buckets|);
      AfterFind(ops, t', d) == t'
  {
    FullWalk(t);
  }

  // What a walk over some items does: the items given to the callback, and its last result.
  datatype Tour<+D> = Tour(items: seq<Item<D>>, rcode: int)

  // Visiting the items of `all` from i on, until the callback returns something other than 0.
  ghost function Toured<D>(all: seq<Item<D>>, f: D -> int, i: nat := 0): Tour<D>
    requires i <= |all|
    decreases |all| - i
  {
    if i == |all| then Tour(all, 0)
    else
      var rcode := f(all[i].data);
      if rcode != 0 then Tour(all[..i + 1], rcode) else Toured(all, f, i + 1)
  }

  // A walk that is not stopped visits everything, and one that is stopped visits everything up to
  // the first item for which the callback does not return 0.
  lemma {:induction false} TouredStops<D>(all: seq<Item<D>>, f: D -> int, i: nat)
    requires i <= |all| && forall j :: 0 <= j < i ==> f(all[j].data) == 0
    ensures var r := Toured(all, f, i);
      && r.items <= all
      && (r.rcode == 0 ==> r.items == all && forall j :: 0 <= j < |all| ==> f(all[j].data) == 0)
      && (r.rcode != 0 ==> r.items != [] && f(r.items[|r.items| - 1].data) == r.rcode
                           && forall j :: 0 <= j < |r.items| - 1 ==> f(all[j].data) == 0)
    decreases |all| - i
  {
    if i < |all| && f(all[i].data) == 0 {
      TouredStops(all, f, i + 1);
    }
  }

  // Visiting c in the middle of a longer walk.
  lemma {:induction false} TouredWithin<D>(v: seq<Item<D>>, c: seq<Item<D>>, below: seq<Item<D>>, f: D -> int, j: nat)
    requires j <= |c|
    ensures var here := Toured(c, f, j);
      Toured(v + c + below, f, |v| + j)
        == if here.rcode == 0 then Toured(v + c + below, f, |v| + |c|) else Tour(v + here.items, here.rcode)
    decreases |c| - j
  {
    if j < |c| {
      var all := v + c + below;
      assert all[|v| + j] == c[j];
      if f(c[j].data) == 0 {
        TouredWithin(v, c, below, f, j + 1);
      } else {
        assert all[..|v| + j + 1] == v + c[..j + 1];
      }
    }
  }

  // A walk from the top bucket that has come down to bucket i: the table, and the items met.
  function TouchedTo<D>(t: Table<D>, i: nat): (r: Table<D>)
    requires Shape(t) && i <= |t.buckets|
    ensures Shape(r) && |r.buckets| == |t.buckets| && r.log == t.log && r.count == t.count
    decreases |t.buckets| - i
  {
    if i == |t.buckets| then t else Touch(TouchedTo(t, i + 1), i)
  }

  function VisitedTo<D>(t: Table<D>, i: nat): seq<Item<D>>
    requires Shape(t) && i <= |t.buckets|
    decreases |t.buckets| - i
  {
    if i == |t.buckets| then [] else VisitedTo(t, i + 1) + Chain(TouchedTo(t, i).buckets, i)
  }

  // What is done and what is left make up the whole walk.
  lemma {:induction false} WalkSplits<D>(t: Table<D>, i: nat)
    requires Shape(t) && i <= |t.buckets|
    ensures WalkTable(TouchedTo(t, i), i) == WalkTable(t, |t.buckets|)
    ensures VisitedTo(t, i) + WalkItems(TouchedTo(t, i), i) == WalkItems(t, |t.buckets|)
    decreases |t.buckets| - i
  {
    if i < |t.buckets| {
      WalkSplits(t, i + 1);
      var above := TouchedTo(t, i + 1);
      assert TouchedTo(t, i) == Touch(above, i);
      Regroup(VisitedTo(t, i + 1), Chain(TouchedTo(t, i).buckets, i), WalkItems(TouchedTo(t, i), i));
    }
  }

  lemma {:induction false} TouchedToKeeps<D>(t: Table<D>, i: nat)
    requires Inv(t) && i <= |t.buckets|
    ensures Inv(TouchedTo(t, i)) && Contents(TouchedTo(t, i).buckets) == Contents(t.buckets)
    decreases |t.buckets| - i
  {
    if i == |t.buckets| {
    } else {
      TouchedToKeeps(t, i + 1);
      var above := TouchedTo(t, i + 1);
      assert TouchedTo(t, i) == Touch(above, i);
      TouchKeeps(above, i);
    }
  }

  lemma TouchedStep<D>(t: Table<D>, i: nat)
    requires Inv(t) && i < |t.buckets|
    ensures Inv(TouchedTo(t, i + 1)) && TouchedTo(t, i) == Touch(TouchedTo(t, i + 1), i)
  {
    TouchedToKeeps(t, i + 1);
    TouchedUnfold(t, i);
  }

  lemma TouchedUnfold<D>(t: Table<D>, i: nat)
    requires Shape(t) && i < |t.buckets|
    ensures TouchedTo(t, i) == Touch(TouchedTo(t, i + 1), i)
  {
  }

  lemma WalkedValid<D>(ops: Ops<D>, t: Table<D>, i: nat)
    requires Valid(ops, t) && i <= |t.buckets|
    ensures Valid(ops, TouchedTo(t, i)) && Contents(TouchedTo(t, i).buckets) == Contents(t.buckets)
  {
    TouchedToKeeps(t, i);
  }

  // What is left of the walk when it has come down to bucket i.
  ghost function TouredFrom<D>(t: Table<D>, f: D -> int, i: nat): Tour<D>
    requires Shape(t) && i <= |t.buckets|
  {
    WalkSplits(t, i);
    Toured(WalkItems(t, |t.buckets|), f, |VisitedTo(t, i)|)
  }

  // Walking stops at the first bucket in which the callback stops it, or goes on.
  lemma TouredBucket<D>(t: Table<D>, f: D -> int, i: nat)
    requires Shape(t) && i < |t.buckets|
    ensures var here := Toured(Chain(TouchedTo(t, i).buckets, i), f);
      TouredFrom(t, f, i + 1)
        == if here.rcode == 0 then TouredFrom(t, f, i) else Tour(VisitedTo(t, i + 1) + here.items, here.rcode)
  {
    WalkSplits(t, i);
    TouredWithin(VisitedTo(t, i + 1), Chain(TouchedTo(t, i).buckets, i), WalkItems(TouchedTo(t, i), i), f, 0);
  }

  // When it has come all the way down, everything has been visited.
  lemma TouredAll<D>(t: Table<D>, f: D -> int)
    requires Shape(t)
    ensures TouredFrom(t, f, |t.buckets|) == Toured(WalkItems(t, |t.buckets|), f)
    ensures TouredFrom(t, f, 0) == Tour(WalkItems(t, |t.buckets|), 0)
    ensures TouchedTo(t, 0) == WalkTable(t, |t.buckets|)
  {
    WalkSplits(t, 0);
  }

  // ---------- the iterator ----------

  // What is left to visit: the rest of the current chain, and the buckets below.
  function Remaining<D>(t: Table<D>, bucket: nat, rest: seq<Item<D>>): seq<Item<D>>
    requires Shape(t) && bucket <= |t.buckets|
  {
    rest + WalkItems(t, bucket)
  }

  datatype Iter<+D> = Iter(table: Table<D>, bucket: nat, rest: seq<Item<D>>, out: Option<Item<D>>)

  // The loop of fr_hash_table_iter_next, from bucket i down.
  function IterDown<D>(t: Table<D>, i: nat): (r: Iter<D>)
    requires Shape(t) && i < |t.buckets|
    ensures Shape(r.table) && |r.table.buckets| == |t.buckets| && r.bucket <= |t.buckets|
    decreases i
  {
    var t1 := Touch(t, i);
    var c := Chain(t1.buckets, i);
    if c != [] then Iter(t1, i, c[1..], Some(c[0]))
    else if i == 0 then Iter(t1, 0, [], None)
    else IterDown(t1, i - 1)
  }

  function IterNext<D>(t: Table<D>, bucket: nat, rest: seq<Item<D>>): (r: Iter<D>)
    requires Shape(t) && bucket <= |t.buckets|
    ensures Shape(r.table) && |r.table.buckets| == |t.buckets| && r.bucket <= |t.buckets|
  {
    if rest != [] then Iter(t, bucket, rest[1..], Some(rest[0]))
    else if bucket == 0 then Iter(t, 0, [], None)
    else IterDown(t, bucket - 1)
  }

  lemma IterCases<D>(t: Table<D>, bucket: nat, rest: seq<Item<D>>)
    requires Shape(t) && bucket <= |t.buckets|
    ensures IterNext(t, bucket, rest)
         == if rest != [] then Iter(t, bucket, rest[1..], Some(rest[0]))
            else if bucket == 0 then Iter(t, 0, [], None)
            else IterDown(t, bucket - 1)
  {
  }

  // One turn of the loop.
  lemma IterTurn<D>(t: Table<D>, i: nat, t1: Table<D>)
    requires Shape(t) && i < |t.buckets| && t1 == Touch(t, i)
    ensures var c := Chain(t1.buckets, i);
      IterDown(t, i)
        == if c != [] then Iter(t1, i, c[1..], Some(c[0])) else if i == 0 then Iter(t1, 0, [], None) else IterDown(t1, i - 1)
  {
  }

  // What the loop is after when it tries bucket i.
  ghost predicate Seeks<D>(t: Table<D>, i: nat, goal: Iter<D>) {
    Shape(t) && i < |t.buckets| && IterDown(t, i) == goal
  }

  lemma SeekTurn<D>(t: Table<D>, i: nat, goal: Iter<D>, t1: Table<D>)
    requires Seeks(t, i, goal) && t1 == Touch(t, i)
    ensures var c := Chain(t1.buckets, i);
      if c != [] then goal == Iter(t1, i, c[1..], Some(c[0]))
      else if i == 0 then goal == Iter(t1, 0, [], None)
      else Seeks(t1, i - 1, goal)
  {
    IterTurn(t, i, t1);
  }

  lemma {:induction false} IterDownNext<D>(t: Table<D>, i: nat)
    requires Shape(t) && i < |t.buckets|
    ensures var r, todo := IterDown(t, i), WalkItems(t, i + 1);
      if todo == [] then r.out == None && Remaining(r.table, r.bucket, r.rest) == []
      else r.out == Some(todo[0]) && Remaining(r.table, r.bucket, r.rest) == todo[1..]
    decreases i
  {
    var t1 := Touch(t, i);
    var c := Chain(t1.buckets, i);
    if c == [] {
      assert WalkItems(t, i + 1) == WalkItems(t1, i);
      if i > 0 {
        IterDownNext(t1, i - 1);
      }
    }
  }

  // Every call of the iterator returns the next item of the walk, and NULL at its end.
  lemma IterFollowsWalk<D>(t: Table<D>, bucket: nat, rest: seq<Item<D>>)
    requires Shape(t) && bucket <= |t.buckets|
    ensures var r, todo := IterNext(t, bucket, rest), Remaining(t, bucket, rest);
      if todo == [] then r.out == None && Remaining(r.table, r.bucket, r.rest) == []
      else r.out == Some(todo[0]) && Remaining(r.table, r.bucket, r.rest) == todo[1..]
  {
    if rest != [] {
      Behead(rest, WalkItems(t, bucket));
    } else if bucket > 0 {
      IterDownNext(t, bucket - 1);
      assert Remaining(t, bucket, rest) == WalkItems(t, bucket);
    }
  }

  // What n calls in a row return.
  ghost function Calls<D>(t: Table<D>, bucket: nat, rest: seq<Item<D>>, n: nat): (r: seq<Option<Item<D>>>)
    requires Shape(t) && bucket <= |t.buckets|
    ensures |r| == n
    decreases n
  {
    if n == 0 then []
    else
      var r := IterNext(t, bucket, rest);
      [r.out] + Calls(r.table, r.bucket, r.rest, n - 1)
  }

  // A run of the iterator returns what is left to visit, item by item, and then NULL for ever.
  lemma {:induction false} CallsFollowWalk<D>(t: Table<D>, bucket: nat, rest: seq<Item<D>>, n: nat, k: nat)
    requires Shape(t) && bucket <= |t.buckets| && k < n
    ensures var todo := Remaining(t, bucket, rest);
      Calls(t, bucket, rest, n)[k] == if k < |todo| then Some(todo[k]) else None
    decreases n
  {
    var r := IterNext(t, bucket, rest);
    IterFollowsWalk(t, bucket, rest);
    FirstCall(t, bucket, rest, n);
    if k > 0 {
      CallsFollowWalk(r.table, r.bucket, r.rest, n - 1, k - 1);
    }
  }

  lemma FirstCall<D>(t: Table<D>, bucket: nat, rest: seq<Item<D>>, n: nat)
    requires Shape(t) && bucket <= |t.buckets| && n > 0
    ensures var r := IterNext(t, bucket, rest);
      Calls(t, bucket, rest, n) == [r.out] + Calls(r.table, r.bucket, r.rest, n - 1)
  {
  }

  // From fr_hash_table_iter_init on: every stored item exactly once, in the order of the walk.
  lemma IterVisitsAll<D>(t: Table<D>, n: nat, k: nat)
    requires Inv(t) && k < n
    ensures var items := WalkItems(t, |t.buckets|);
      && multiset(items) == Contents(t.buckets)
      && Calls(t, |t.buckets|, [], n)[k] == if k < |items| then Some(items[k]) else None
  {
    FullWalk(t);
    CallsFollowWalk(t, |t.buckets|, [], n, k);
  }

  lemma Behead<T>(a: seq<T>, b: seq<T>)
    ensures if a == [] then a + b == b else (a + b)[0] == a[0] && (a + b)[1..] == a[1..] + b
  {
  }
}
