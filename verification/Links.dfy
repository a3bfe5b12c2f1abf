// Singly linked chains as values: a snapshot of the pointers and of the nodes' contents, the chains
// they form, and what the pointer updates of a hash table do to them.
module Links {
  import opened Options

  // heads maps a bucket to its first node, or to the end of the chains when it is empty; a bucket
  // that is not in it is NULL. place records for each node its bucket and its position there.
  datatype Links<N, X> = Links(heads: map<nat, N>, next: map<N, N>, items: map<N, X>, nil: N,
                               chains: seq<seq<N>>, place: map<N, (int, int)>)

  // What follows position i of chain c: its i-th node, or the end of the chain.
  function At<N>(c: seq<N>, nil: N, i: nat): N
    requires i <= |c|
  {
    if i == |c| then nil else c[i]
  }

  // From this head the links run through exactly the nodes of c and end in nil.
  ghost predicate Chained<N>(head: Option<N>, next: map<N, N>, nil: N, c: seq<N>) {
    && (if head.None? then c == [] else head.value == At(c, nil, 0))
    && forall i {:trigger Step(next, nil, c, i)} :: 0 <= i < |c| ==> Step(next, nil, c, i)
  }

  ghost predicate Step<N>(next: map<N, N>, nil: N, c: seq<N>, i: nat)
    requires i < |c|
  {
    c[i] in next && next[c[i]] == At(c, nil, i + 1)
  }

  // Every node of chain c of bucket b is recorded at its position.
  ghost predicate Located<N>(place: map<N, (int, int)>, b: int, c: seq<N>) {
    forall i :: 0 <= i < |c| ==> c[i] in place && place[c[i]] == (b, i)
  }

  // The nodes of c hold the values v.
  ghost predicate Holds<N, X>(items: map<N, X>, c: seq<N>, v: seq<X>) {
    && |v| == |c|
    && forall i :: 0 <= i < |c| ==> c[i] in items && items[c[i]] == v[i]
  }

  function Head<N, X>(l: Links<N, X>, b: nat): Option<N> {
    if b in l.heads then Some(l.heads[b]) else None
  }

  function Value<X>(v: Option<seq<X>>): seq<X> {
    if v.Some? then v.value else []
  }

  ghost predicate LinkedChain<N, X>(l: Links<N, X>, buckets: seq<Option<seq<X>>>, b: nat)
    requires b < |l.chains| == |buckets|
  {
    && (b in l.heads <==> buckets[b].Some?)
    && Chained(Head(l, b), l.next, l.nil, l.chains[b])
    && Located(l.place, b, l.chains[b])
    && Holds(l.items, l.chains[b], Value(buckets[b]))
  }

  // The first n buckets. Written as a recursion, so that callers see the chains only where they
  // ask for one with the lemmas below.
  ghost predicate LinkedUpTo<N, X>(l: Links<N, X>, buckets: seq<Option<seq<X>>>, n: nat)
    requires n <= |l.chains| == |buckets|
  {
    n == 0 || (LinkedChain(l, buckets, n - 1) && LinkedUpTo(l, buckets, n - 1))
  }

  // The pointers form disjoint chains that hold the buckets.
  ghost predicate Linked<N, X>(l: Links<N, X>, buckets: seq<Option<seq<X>>>) {
    && |l.chains| == |buckets| && l.nil !in l.next
    && LinkedUpTo(l, buckets, |buckets|)
  }

  lemma {:induction false} LinkedUpToIff<N, X>(l: Links<N, X>, buckets: seq<Option<seq<X>>>, n: nat)
    requires n <= |l.chains| == |buckets|
    ensures LinkedUpTo(l, buckets, n) <==> forall b :: 0 <= b < n ==> LinkedChain(l, buckets, b)
  {
    if n > 0 {
      LinkedUpToIff(l, buckets, n - 1);
    }
  }

  // One filled bucket, without nodes.
  lemma EmptyLinked<N, X>(l: Links<N, X>, buckets: seq<Option<seq<X>>>)
    requires |l.chains| == |buckets| > 0 && l.nil !in l.next && l.heads == map[0 := l.nil]
    requires buckets[0] == Some([]) && forall b :: 0 < b < |buckets| ==> buckets[b] == None
    requires forall b :: 0 <= b < |buckets| ==> l.chains[b] == []
    ensures Linked(l, buckets)
  {
    forall b | 0 <= b < |buckets|
      ensures LinkedChain(l, buckets, b)
    {
    }
    LinkedUpToIff(l, buckets, |buckets|);
  }

  lemma ChainLinked<N, X>(l: Links<N, X>, buckets: seq<Option<seq<X>>>, b: nat)
    requires Linked(l, buckets) && b < |buckets|
    ensures LinkedChain(l, buckets, b)
  {
    LinkedUpToIff(l, buckets, |buckets|);
  }

  // Following a link of chain b.
  lemma Follow<N, X>(l: Links<N, X>, buckets: seq<Option<seq<X>>>, b: nat, i: nat)
    requires Linked(l, buckets) && b < |buckets| && i < |l.chains[b]|
    ensures b in l.heads && buckets[b].Some? && |buckets[b].value| == |l.chains[b]|
    ensures var n := l.chains[b][i];
      && n in l.next && n != l.nil && l.next[n] == At(l.chains[b], l.nil, i + 1)
      && n in l.items && l.items[n] == buckets[b].value[i]
  {
    ChainLinked(l, buckets, b);
    assert Step(l.next, l.nil, l.chains[b], i);
  }

  // A node occurs once in its chain.
  lemma Position<N, X>(l: Links<N, X>, buckets: seq<Option<seq<X>>>, b: nat, i: nat, j: nat)
    requires Linked(l, buckets) && b < |buckets| && i < |l.chains[b]| && j < |l.chains[b]|
    ensures l.chains[b][i] == l.chains[b][j] ==> i == j
  {
    ChainLinked(l, buckets, b);
  }

  // The head of a filled bucket; NULL buckets have no chain.
  lemma First<N, X>(l: Links<N, X>, buckets: seq<Option<seq<X>>>, b: nat)
    requires Linked(l, buckets) && b < |buckets|
    ensures b in l.heads <==> buckets[b].Some?
    ensures b in l.heads ==> l.heads[b] == At(l.chains[b], l.nil, 0) && |buckets[b].value| == |l.chains[b]|
    ensures b !in l.heads ==> l.chains[b] == []
  {
    ChainLinked(l, buckets, b);
  }

  // ---------- one chain ----------

  lemma SetOther<N>(head: Option<N>, next: map<N, N>, nil: N, c: seq<N>, n: N, to: N)
    requires Chained(head, next, nil, c) && n !in c
    ensures Chained(head, next[n := to], nil, c)
  {
    var next' := next[n := to];
    forall i | 0 <= i < |c|
      ensures Step(next', nil, c, i)
    {
      assert Step(next, nil, c, i);
    }
  }

  lemma CutFront<N>(head: Option<N>, next: map<N, N>, nil: N, c: seq<N>, k: nat)
    requires Chained(head, next, nil, c) && 0 < k <= |c|
    requires forall i :: 0 <= i < k - 1 ==> c[i] != c[k - 1]
    ensures Chained(head, next[c[k - 1] := nil], nil, c[..k])
  {
    var next', d := next[c[k - 1] := nil], c[..k];
    forall i | 0 <= i < |d|
      ensures Step(next', nil, d, i)
    {
      assert Step(next, nil, c, i);
    }
  }

  lemma CutBack<N>(head: Option<N>, next: map<N, N>, nil: N, c: seq<N>, k: nat)
    requires Chained(head, next, nil, c) && k < |c|
    ensures Chained(Some(c[k]), next, nil, c[k..])
  {
    var d := c[k..];
    forall i | 0 <= i < |d|
      ensures Step(next, nil, d, i)
    {
      assert Step(next, nil, c, k + i);
    }
  }

  lemma Spliced<N>(head: Option<N>, next: map<N, N>, nil: N, c: seq<N>, k: nat, n: N)
    requires Chained(head, next, nil, c) && head.Some? && k <= |c| && n !in c
    requires forall i, j :: 0 <= i < j < |c| ==> c[i] != c[j]
    ensures var c' := c[..k] + [n] + c[k..];
      if k == 0 then Chained(Some(n), next[n := head.value], nil, c')
      else c[k - 1] in next && Chained(head, next[n := next[c[k - 1]]][c[k - 1] := n], nil, c')
  {
    var c' := c[..k] + [n] + c[k..];
    assert k > 0 ==> Step(next, nil, c, k - 1);
    var next' := if k == 0 then next[n := head.value] else next[n := next[c[k - 1]]][c[k - 1] := n];
    forall i | 0 <= i < |c'|
      ensures Step(next', nil, c', i)
    {
      if i < k {
        assert c'[i] == c[i] && Step(next, nil, c, i);
      } else if i > k {
        assert c'[i] == c[i - 1] && Step(next, nil, c, i - 1);
        assert i < |c| ==> c'[i + 1] == c[i];
      }
    }
  }

  lemma Bypassed<N>(head: Option<N>, next: map<N, N>, nil: N, c: seq<N>, k: nat)
    requires Chained(head, next, nil, c) && k < |c|
    requires forall i, j :: 0 <= i < j < |c| ==> c[i] != c[j]
    ensures c[k] in next
    ensures var c' := c[..k] + c[k + 1..];
      if k == 0 then Chained(Some(next[c[k]]), next, nil, c')
      else c[k - 1] in next && Chained(head, next[c[k - 1] := next[c[k]]], nil, c')
  {
    var c' := c[..k] + c[k + 1..];
    assert Step(next, nil, c, k) && (k > 0 ==> Step(next, nil, c, k - 1));
    var next' := if k == 0 then next else next[c[k - 1] := next[c[k]]];
    forall i | 0 <= i < |c'|
      ensures Step(next', nil, c', i)
    {
      if i < k {
        assert c'[i] == c[i] && Step(next, nil, c, i);
      } else {
        assert c'[i] == c[i + 1] && Step(next, nil, c, i + 1);
      }
    }
  }

  // A link that is dropped from the map and belongs to no chain is not missed.
  lemma Forgotten<N>(head: Option<N>, next: map<N, N>, nil: N, c: seq<N>, n: N)
    requires Chained(head, next, nil, c) && n !in c
    ensures Chained(head, next - {n}, nil, c)
  {
    var next' := next - {n};
    forall i | 0 <= i < |c|
      ensures Step(next', nil, c, i)
    {
      assert Step(next, nil, c, i);
    }
  }

  lemma NotInChain<N>(head: Option<N>, next: map<N, N>, nil: N, c: seq<N>, n: N)
    requires Chained(head, next, nil, c) && n !in next
    ensures n !in c
  {
    forall i | 0 <= i < |c|
      ensures c[i] != n
    {
      assert Step(next, nil, c, i);
    }
  }

  lemma SplicedHolds<N, X>(items: map<N, X>, c: seq<N>, v: seq<X>, k: nat, n: N, x: X)
    requires Holds(items, c, v) && k <= |c| && n !in c
    ensures Holds(items[n := x], c[..k] + [n] + c[k..], v[..k] + [x] + v[k..])
  {
    var c', v' := c[..k] + [n] + c[k..], v[..k] + [x] + v[k..];
    forall i | 0 <= i < |c'|
      ensures c'[i] in items[n := x] && items[n := x][c'[i]] == v'[i]
    {
      assert c'[i] == if i < k then c[i] else if i == k then n else c[i - 1];
      assert v'[i] == if i < k then v[i] else if i == k then x else v[i - 1];
    }
  }

  lemma SplicedLocated<N>(place: map<N, (int, int)>, place': map<N, (int, int)>, b: int, c: seq<N>, k: nat, n: N)
    requires Located(place, b, c) && k <= |c| && n !in c && n in place' && place'[n] == (b, k)
    requires forall m :: m in place && m != n ==>
      m in place' && place'[m] == if place[m].0 == b && place[m].1 >= k then (b, place[m].1 + 1) else place[m]
    ensures Located(place', b, c[..k] + [n] + c[k..])
  {
    var c' := c[..k] + [n] + c[k..];
    forall i | 0 <= i < |c'|
      ensures c'[i] in place' && place'[c'[i]] == (b, i)
    {
      assert c'[i] == if i < k then c[i] else if i == k then n else c[i - 1];
    }
  }

  lemma BypassedLocated<N>(place: map<N, (int, int)>, place': map<N, (int, int)>, b: int, c: seq<N>, k: nat)
    requires Located(place, b, c) && k < |c|
    requires forall m :: m in place ==>
      m in place' && place'[m] == if place[m].0 == b && place[m].1 > k then (b, place[m].1 - 1) else place[m]
    ensures Located(place', b, c[..k] + c[k + 1..])
  {
    var c' := c[..k] + c[k + 1..];
    forall i | 0 <= i < |c'|
      ensures c'[i] in place' && place'[c'[i]] == (b, i)
    {
      assert c'[i] == if i < k then c[i] else c[i + 1];
    }
  }

  lemma BypassedHolds<N, X>(items: map<N, X>, c: seq<N>, v: seq<X>, k: nat)
    requires Holds(items, c, v) && k < |c|
    requires forall i :: 0 <= i < |c| && i != k ==> c[i] != c[k]
    ensures Holds(items - {c[k]}, c[..k] + c[k + 1..], v[..k] + v[k + 1..])
  {
    var c', v' := c[..k] + c[k + 1..], v[..k] + v[k + 1..];
    forall i | 0 <= i < |c'|
      ensures c'[i] in items - {c[k]} && items[c'[i]] == v'[i]
    {
      var j := if i < k then i else i + 1;
      assert c'[i] == c[j] && v'[i] == v[j];
    }
  }

  // The nodes around position k have links.
  lemma LinkOf<N, X>(l: Links<N, X>, buckets: seq<Option<seq<X>>>, b: nat, k: nat)
    requires b < |l.chains| == |buckets| && k <= |l.chains[b]| && LinkedChain(l, buckets, b)
    ensures k > 0 ==> l.chains[b][k - 1] in l.next
    ensures k < |l.chains[b]| ==> l.chains[b][k] in l.next
  {
    assert k > 0 ==> Step(l.next, l.nil, l.chains[b], k - 1);
    assert k < |l.chains[b]| ==> Step(l.next, l.nil, l.chains[b], k);
  }

  // ---------- cutting a chain ----------

  // *last = nil, heads[r] = chains[b][k]
  function Cut<N, X>(l: Links<N, X>, b: nat, k: nat, r: nat): Links<N, X>
    requires b < |l.chains| && r < |l.chains| && k < |l.chains[b]|
  {
    var c := l.chains[b];
    l.(heads := (if k == 0 then l.heads[b := l.nil] else l.heads)[r := c[k]],
       next := if k == 0 then l.next else l.next[c[k - 1] := l.nil],
       chains := l.chains[b := c[..k]][r := c[k..]],
       place := map n | n in l.place ::
         if l.place[n].0 == b && l.place[n].1 >= k then (r as int, l.place[n].1 - k) else l.place[n])
  }

  function CutBuckets<X>(buckets: seq<Option<seq<X>>>, b: nat, k: nat, r: nat): seq<Option<seq<X>>>
    requires b < |buckets| && r < |buckets| && k <= |Value(buckets[b])|
  {
    buckets[b := Some(Value(buckets[b])[..k])][r := Some(Value(buckets[b])[k..])]
  }

  lemma CutOwn<N, X>(l: Links<N, X>, buckets: seq<Option<seq<X>>>, b: nat, k: nat, r: nat)
    requires b < |l.chains| == |buckets| && r < |l.chains| && r != b && k < |l.chains[b]|
    requires LinkedChain(l, buckets, b)
    ensures LinkedChain(Cut(l, b, k, r), CutBuckets(buckets, b, k, r), b)
  {
    var c := l.chains[b];
    if k > 0 {
      CutFront(Head(l, b), l.next, l.nil, c, k);
    }
  }

  lemma CutNew<N, X>(l: Links<N, X>, buckets: seq<Option<seq<X>>>, b: nat, k: nat, r: nat)
    requires b < |l.chains| == |buckets| && r < |l.chains| && r != b && k < |l.chains[b]|
    requires LinkedChain(l, buckets, b)
    ensures LinkedChain(Cut(l, b, k, r), CutBuckets(buckets, b, k, r), r)
  {
    CutBackChain(Head(l, b), l.next, l.nil, l.chains[b], k, l.place, b);
  }

  lemma CutOther<N, X>(l: Links<N, X>, buckets: seq<Option<seq<X>>>, b: nat, k: nat, r: nat, a: nat)
    requires b < |l.chains| == |buckets| && r < |l.chains| && a < |l.chains| && a != b && a != r && k < |l.chains[b]|
    requires LinkedChain(l, buckets, b) && LinkedChain(l, buckets, a)
    ensures LinkedChain(Cut(l, b, k, r), CutBuckets(buckets, b, k, r), a)
  {
    var c := l.chains[b];
    if k > 0 {
      assert l.place[c[k - 1]] == (b, k - 1);
      SetOther(Head(l, a), l.next, l.nil, l.chains[a], c[k - 1], l.nil);
    }
  }

  lemma CutBackChain<N>(head: Option<N>, next: map<N, N>, nil: N, c: seq<N>, k: nat, place: map<N, (int, int)>, b: int)
    requires Chained(head, next, nil, c) && k < |c| && Located(place, b, c)
    ensures Chained(Some(c[k]), if k == 0 then next else next[c[k - 1] := nil], nil, c[k..])
  {
    CutBack(head, next, nil, c, k);
    if k > 0 {
      SetOther(Some(c[k]), next, nil, c[k..], c[k - 1], nil);
    }
  }

  // The nodes of bucket b from k on become the chain of bucket r, which was NULL.
  lemma CutLinked<N, X>(l: Links<N, X>, buckets: seq<Option<seq<X>>>, b: nat, k: nat, r: nat)
    requires Linked(l, buckets) && b < |buckets| && r < |buckets| && r != b
    requires buckets[r].None? && k < |l.chains[b]|
    ensures k > 0 ==> l.chains[b][k - 1] in l.next
    ensures |Value(buckets[b])| == |l.chains[b]|
    ensures Linked(Cut(l, b, k, r), CutBuckets(buckets, b, k, r))
  {
    LinkedUpToIff(l, buckets, |buckets|);
    assert LinkedChain(l, buckets, b) && LinkedChain(l, buckets, r);
    LinkOf(l, buckets, b, k);
    forall a | 0 <= a < |buckets|
      ensures LinkedChain(Cut(l, b, k, r), CutBuckets(buckets, b, k, r), a)
    {
      if a == b {
        CutOwn(l, buckets, b, k, r);
      } else if a == r {
        CutNew(l, buckets, b, k, r);
      } else {
        CutOther(l, buckets, b, k, r, a);
      }
    }
    LinkedUpToIff(Cut(l, b, k, r), CutBuckets(buckets, b, k, r), |buckets|);
  }

  // ---------- linking a node in ----------

  // node->next = *last, *last = node, for a node that holds x
  function Splice<N, X>(l: Links<N, X>, b: nat, k: nat, node: N, x: X): Links<N, X>
    requires b < |l.chains| && b in l.heads && k <= |l.chains[b]| && (k > 0 ==> l.chains[b][k - 1] in l.next)
  {
    var c := l.chains[b];
    l.(heads := if k == 0 then l.heads[b := node] else l.heads,
       next := if k == 0 then l.next[node := l.heads[b]] else l.next[node := l.next[c[k - 1]]][c[k - 1] := node],
       items := l.items[node := x],
       chains := l.chains[b := c[..k] + [node] + c[k..]],
       place := (map n | n in l.place ::
         if l.place[n].0 == b && l.place[n].1 >= k then (b as int, l.place[n].1 + 1) else l.place[n])[node := (b, k)])
  }

  function SpliceBuckets<X>(buckets: seq<Option<seq<X>>>, b: nat, k: nat, x: X): seq<Option<seq<X>>>
    requires b < |buckets| && k <= |Value(buckets[b])|
  {
    buckets[b := Some(Value(buckets[b])[..k] + [x] + Value(buckets[b])[k..])]
  }

  lemma SpliceOwn<N, X>(l: Links<N, X>, buckets: seq<Option<seq<X>>>, b: nat, k: nat, node: N, x: X)
    requires b < |l.chains| == |buckets| && b in l.heads && k <= |l.chains[b]|
    requires LinkedChain(l, buckets, b) && node !in l.next
    ensures k > 0 ==> l.chains[b][k - 1] in l.next
    ensures LinkedChain(Splice(l, b, k, node, x), SpliceBuckets(buckets, b, k, x), b)
  {
    LinkOf(l, buckets, b, k);
    var c, l' := l.chains[b], Splice(l, b, k, node, x);
    NotInChain(Head(l, b), l.next, l.nil, c, node);
    Spliced(Head(l, b), l.next, l.nil, c, k, node);
    SplicedHolds(l.items, c, Value(buckets[b]), k, node, x);
    SplicedLocated(l.place, l'.place, b, c, k, node);
  }

  lemma SpliceOther<N, X>(l: Links<N, X>, buckets: seq<Option<seq<X>>>, b: nat, k: nat, node: N, x: X, a: nat)
    requires b < |l.chains| == |buckets| && b in l.heads && k <= |l.chains[b]| && a < |l.chains| && a != b
    requires LinkedChain(l, buckets, b) && LinkedChain(l, buckets, a) && node !in l.next
    ensures k > 0 ==> l.chains[b][k - 1] in l.next
    ensures LinkedChain(Splice(l, b, k, node, x), SpliceBuckets(buckets, b, k, x), a)
  {
    LinkOf(l, buckets, b, k);
    var c, d := l.chains[b], l.chains[a];
    NotInChain(Head(l, a), l.next, l.nil, d, node);
    if k == 0 {
      SetOther(Head(l, a), l.next, l.nil, d, node, l.heads[b]);
    } else {
      assert l.place[c[k - 1]] == (b, k - 1);
      SetOther(Head(l, a), l.next, l.nil, d, node, l.next[c[k - 1]]);
      SetOther(Head(l, a), l.next[node := l.next[c[k - 1]]], l.nil, d, c[k - 1], node);
    }
  }

  // The new node becomes the k-th of bucket b.
  lemma SpliceLinked<N, X>(l: Links<N, X>, buckets: seq<Option<seq<X>>>, b: nat, k: nat, node: N, x: X)
    requires Linked(l, buckets) && b < |buckets| && buckets[b].Some? && k <= |l.chains[b]|
    requires node !in l.next && node != l.nil
    ensures b in l.heads && (k > 0 ==> l.chains[b][k - 1] in l.next)
    ensures |Value(buckets[b])| == |l.chains[b]|
    ensures Linked(Splice(l, b, k, node, x), SpliceBuckets(buckets, b, k, x))
  {
    LinkedUpToIff(l, buckets, |buckets|);
    assert LinkedChain(l, buckets, b);
    LinkOf(l, buckets, b, k);
    forall a | 0 <= a < |buckets|
      ensures LinkedChain(Splice(l, b, k, node, x), SpliceBuckets(buckets, b, k, x), a)
    {
      if a == b {
        SpliceOwn(l, buckets, b, k, node, x);
      } else {
        SpliceOther(l, buckets, b, k, node, x, a);
      }
    }
    LinkedUpToIff(Splice(l, b, k, node, x), SpliceBuckets(buckets, b, k, x), |buckets|);
  }

  // ---------- taking a node out ----------

  // *last = node->next
  function Unlink<N, X>(l: Links<N, X>, b: nat, k: nat): Links<N, X>
    requires b < |l.chains| && k < |l.chains[b]| && l.chains[b][k] in l.next
    requires k > 0 ==> l.chains[b][k - 1] in l.next
  {
    var c := l.chains[b];
    l.(heads := if k == 0 then l.heads[b := l.next[c[k]]] else l.heads,
       next := (if k == 0 then l.next else l.next[c[k - 1] := l.next[c[k]]]) - {c[k]},
       items := l.items - {c[k]},
       chains := l.chains[b := c[..k] + c[k + 1..]],
       place := map n | n in l.place ::
         if l.place[n].0 == b && l.place[n].1 > k then (b as int, l.place[n].1 - 1) else l.place[n])
  }

  function UnlinkBuckets<X>(buckets: seq<Option<seq<X>>>, b: nat, k: nat): seq<Option<seq<X>>>
    requires b < |buckets| && k < |Value(buckets[b])|
  {
    buckets[b := Some(Value(buckets[b])[..k] + Value(buckets[b])[k + 1..])]
  }

  lemma UnlinkOwn<N, X>(l: Links<N, X>, buckets: seq<Option<seq<X>>>, b: nat, k: nat)
    requires b < |l.chains| == |buckets| && k < |l.chains[b]| && LinkedChain(l, buckets, b)
    ensures l.chains[b][k] in l.next && (k > 0 ==> l.chains[b][k - 1] in l.next)
    ensures LinkedChain(Unlink(l, b, k), UnlinkBuckets(buckets, b, k), b)
  {
    var c := l.chains[b];
    UnlinkOwnChain(Head(l, b), l.next, l.nil, c, k, l.place, b);
    UnlinkLocated(l, b, k);
    DistinctNodes(l.place, b, c);
    BypassedHolds(l.items, c, Value(buckets[b]), k);
  }

  lemma UnlinkLocated<N, X>(l: Links<N, X>, b: nat, k: nat)
    requires b < |l.chains| && k < |l.chains[b]| && Located(l.place, b, l.chains[b])
    requires l.chains[b][k] in l.next && (k > 0 ==> l.chains[b][k - 1] in l.next)
    ensures var c := l.chains[b]; Located(Unlink(l, b, k).place, b, c[..k] + c[k + 1..])
  {
    BypassedLocated(l.place, Unlink(l, b, k).place, b, l.chains[b], k);
  }

  lemma DistinctNodes<N>(place: map<N, (int, int)>, b: int, c: seq<N>)
    requires Located(place, b, c)
    ensures forall i, j :: 0 <= i < |c| && 0 <= j < |c| && i != j ==> c[i] != c[j]
  {
  }

  lemma UnlinkOwnChain<N>(head: Option<N>, next: map<N, N>, nil: N, c: seq<N>, k: nat, place: map<N, (int, int)>, b: int)
    requires Chained(head, next, nil, c) && k < |c| && Located(place, b, c)
    ensures c[k] in next && (k > 0 ==> c[k - 1] in next)
    ensures Chained(if k == 0 then Some(next[c[k]]) else head,
                    (if k == 0 then next else next[c[k - 1] := next[c[k]]]) - {c[k]}, nil, c[..k] + c[k + 1..])
  {
    Bypassed(head, next, nil, c, k);
    var next' := if k == 0 then next else next[c[k - 1] := next[c[k]]];
    Forgotten(if k == 0 then Some(next[c[k]]) else head, next', nil, c[..k] + c[k + 1..], c[k]);
  }

  lemma UnlinkOther<N, X>(l: Links<N, X>, buckets: seq<Option<seq<X>>>, b: nat, k: nat, a: nat)
    requires b < |l.chains| == |buckets| && k < |l.chains[b]| && a < |l.chains| && a != b
    requires LinkedChain(l, buckets, b) && LinkedChain(l, buckets, a)
    ensures l.chains[b][k] in l.next && (k > 0 ==> l.chains[b][k - 1] in l.next)
    ensures LinkedChain(Unlink(l, b, k), UnlinkBuckets(buckets, b, k), a)
  {
    LinkOf(l, buckets, b, k);
    var c, d := l.chains[b], l.chains[a];
    assert l.place[c[k]] == (b, k);
    if k > 0 {
      assert l.place[c[k - 1]] == (b, k - 1);
      SetOther(Head(l, a), l.next, l.nil, d, c[k - 1], l.next[c[k]]);
      Forgotten(Head(l, a), l.next[c[k - 1] := l.next[c[k]]], l.nil, d, c[k]);
    } else {
      Forgotten(Head(l, a), l.next, l.nil, d, c[k]);
    }
  }

  // The k-th node of bucket b leaves its chain.
  lemma UnlinkLinked<N, X>(l: Links<N, X>, buckets: seq<Option<seq<X>>>, b: nat, k: nat)
    requires Linked(l, buckets) && b < |buckets| && k < |l.chains[b]|
    ensures l.chains[b][k] in l.next && (k > 0 ==> l.chains[b][k - 1] in l.next)
    ensures |Value(buckets[b])| == |l.chains[b]|
    ensures Linked(Unlink(l, b, k), UnlinkBuckets(buckets, b, k))
  {
    LinkedUpToIff(l, buckets, |buckets|);
    assert LinkedChain(l, buckets, b);
    UnlinkOwn(l, buckets, b, k);
    forall a | 0 <= a < |buckets|
      ensures LinkedChain(Unlink(l, b, k), UnlinkBuckets(buckets, b, k), a)
    {
      if a != b {
        UnlinkOther(l, buckets, b, k, a);
      }
    }
    LinkedUpToIff(Unlink(l, b, k), UnlinkBuckets(buckets, b, k), |buckets|);
  }

  // ---------- filling a bucket, changing a value, growing ----------

  // heads[b] = nil
  lemma FillLinked<N, X>(l: Links<N, X>, buckets: seq<Option<seq<X>>>, b: nat)
    requires Linked(l, buckets) && b < |buckets| && buckets[b].None?
    ensures Linked(l.(heads := l.heads[b := l.nil]), buckets[b := Some([])])
  {
    var l', buckets' := l.(heads := l.heads[b := l.nil]), buckets[b := Some([])];
    LinkedUpToIff(l, buckets, |buckets|);
    forall a | 0 <= a < |buckets|
      ensures LinkedChain(l', buckets', a)
    {
      assert LinkedChain(l, buckets, a);
    }
    LinkedUpToIff(l', buckets', |buckets|);
  }

  // node->data = data
  lemma SetLinked<N, X>(l: Links<N, X>, buckets: seq<Option<seq<X>>>, b: nat, k: nat, x: X)
    requires Linked(l, buckets) && b < |buckets| && k < |l.chains[b]|
    ensures |Value(buckets[b])| == |l.chains[b]|
    ensures Linked(l.(items := l.items[l.chains[b][k] := x]), buckets[b := Some(Value(buckets[b])[k := x])])
  {
    ChainLinked(l, buckets, b);
    var l', buckets' := l.(items := l.items[l.chains[b][k] := x]), buckets[b := Some(Value(buckets[b])[k := x])];
    LinkedUpToIff(l, buckets, |buckets|);
    assert l.place[l.chains[b][k]] == (b, k);
    forall a | 0 <= a < |buckets|
      ensures LinkedChain(l', buckets', a)
    {
      assert LinkedChain(l, buckets, a);
    }
    LinkedUpToIff(l', buckets', |buckets|);
  }

  // A larger array whose new heads are NULL.
  lemma GrowLinked<N, X>(l: Links<N, X>, buckets: seq<Option<seq<X>>>, n: nat)
    requires Linked(l, buckets) && forall b :: b in l.heads ==> b < |buckets|
    ensures Linked(l.(chains := l.chains + seq(n, _ => [])), buckets + seq(n, _ => None))
  {
    var l', buckets' := l.(chains := l.chains + seq(n, _ => [])), buckets + seq(n, _ => None);
    LinkedUpToIff(l, buckets, |buckets|);
    forall a | 0 <= a < |buckets'|
      ensures LinkedChain(l', buckets', a)
    {
      if a < |buckets| {
        assert LinkedChain(l, buckets, a);
      }
    }
    LinkedUpToIff(l', buckets', |buckets'|);
  }
}
