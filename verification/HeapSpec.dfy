// The binary heap of heap.c as a sequence: bubbling an element up, moving a hole down, and why both
// keep the heap order and the elements.
module HeapSpec {
  import opened Compare

  // An element of the heap, and the key it is compared by.
  datatype Item<+N, +K> = Item(node: N, key: K)

  // HEAP_PARENT and HEAP_LEFT
  function Parent(i: nat): (p: nat)
    requires i > 0
    ensures p < i && (i == Left(p) || i == Left(p) + 1)
  {
    (i - 1) / 2
  }

  function Left(i: nat): nat {
    2 * i + 1
  }

  function Swap<T>(s: seq<T>, i: nat, j: nat): (r: seq<T>)
    requires i < |s| && j < |s|
    ensures |r| == |s|
  {
    s[i := s[j]][j := s[i]]
  }

  // fr_heap_bubble
  function Bubble<N, K>(cmp: Cmp<K>, s: seq<Item<N, K>>, child: nat): (r: seq<Item<N, K>>)
    requires child < |s|
    ensures |r| == |s|
    decreases child
  {
    if child == 0 || cmp(s[Parent(child)].key, s[child].key) < 0 then s
    else Bubble(cmp, Swap(s, child, Parent(child)), Parent(child))
  }

  // The child that moves into a hole: the right one only if it is smaller.
  function Smaller<N, K>(cmp: Cmp<K>, s: seq<Item<N, K>>, hole: nat): (c: nat)
    requires Left(hole) < |s|
    ensures (c == Left(hole) || c == Left(hole) + 1) && c < |s|
  {
    var c := Left(hole);
    if c != |s| - 1 && cmp(s[c + 1].key, s[c].key) < 0 then c + 1 else c
  }

  datatype Hole<+N, +K> = Hole(items: seq<Item<N, K>>, at: nat)

  // The loop of fr_heap_extract: move the hole down to a leaf.
  function Descend<N, K>(cmp: Cmp<K>, s: seq<Item<N, K>>, hole: nat): (r: Hole<N, K>)
    requires hole < |s|
    ensures |r.items| == |s| && hole <= r.at < |s| && Left(r.at) >= |s|
    decreases |s| - hole
  {
    if Left(hole) >= |s| then Hole(s, hole)
    else
      var c := Smaller(cmp, s, hole);
      Descend(cmp, s[hole := s[c]], c)
  }

  // fr_heap_insert
  function Insert<N, K>(cmp: Cmp<K>, s: seq<Item<N, K>>, x: Item<N, K>): seq<Item<N, K>> {
    Bubble(cmp, s + [x], |s|)
  }

  // fr_heap_extract of the element at i
  function Extract<N, K>(cmp: Cmp<K>, s: seq<Item<N, K>>, i: nat): (r: seq<Item<N, K>>)
    requires i < |s|
    ensures |r| == |s| - 1
  {
    var max := |s| - 1;
    var h := Descend(cmp, s, i);
    if h.at == max then h.items[..max]
    else Bubble(cmp, h.items[h.at := h.items[max]][..max], h.at)
  }

  // ---------- the heap order ----------

  ghost predicate InOrder<N, K>(cmp: Cmp<K>, s: seq<Item<N, K>>, i: nat)
    requires 0 < i < |s|
  {
    cmp(s[Parent(i)].key, s[i].key) <= 0
  }

  ghost predicate Ordered<N, K>(cmp: Cmp<K>, s: seq<Item<N, K>>) {
    forall i {:trigger InOrder(cmp, s, i)} :: 0 < i < |s| ==> InOrder(cmp, s, i)
  }

  // Ordered except between c and its parent; c's parent is not after c's children.
  ghost predicate OrderedBut<N, K>(cmp: Cmp<K>, s: seq<Item<N, K>>, c: nat)
    requires c < |s|
  {
    && (forall i {:trigger InOrder(cmp, s, i)} :: 0 < i < |s| && i != c ==> InOrder(cmp, s, i))
    && (forall i {:trigger InOrder(cmp, s, i)} :: 0 < i < |s| && Parent(i) == c && c > 0
          ==> cmp(s[Parent(c)].key, s[i].key) <= 0)
  }

  // Ordered except around a hole, over which its parent and children are in order.
  ghost predicate OrderedAround<N, K>(cmp: Cmp<K>, s: seq<Item<N, K>>, h: nat)
    requires h < |s|
  {
    && (forall i {:trigger InOrder(cmp, s, i)} :: 0 < i < |s| && i != h && Parent(i) != h ==> InOrder(cmp, s, i))
    && (forall i {:trigger InOrder(cmp, s, i)} :: 0 < i < |s| && Parent(i) == h && h > 0
          ==> cmp(s[Parent(h)].key, s[i].key) <= 0)
  }

  // One swap moves the disorder one level up.
  lemma SwapUp<N, K(!new)>(cmp: Cmp<K>, s: seq<Item<N, K>>, c: nat)
    requires GoodCmp(cmp) && 0 < c < |s| && OrderedBut(cmp, s, c)
    requires !(cmp(s[Parent(c)].key, s[c].key) < 0)
    ensures OrderedBut(cmp, Swap(s, c, Parent(c)), Parent(c))
  {
    var p := Parent(c);
    var s' := Swap(s, c, p);
    assert Triple(cmp, s[p].key, s[c].key, s[c].key) && Triple(cmp, s[c].key, s[p].key, s[p].key);
    forall i | 0 < i < |s|
      ensures i != p ==> InOrder(cmp, s', i)
      ensures Parent(i) == p && p > 0 ==> cmp(s'[Parent(p)].key, s'[i].key) <= 0
    {
      assert i != c ==> InOrder(cmp, s, i);
      assert p > 0 ==> InOrder(cmp, s, p);
      if Parent(i) == p {
        assert Triple(cmp, s[c].key, s[p].key, s[i].key);
        if p > 0 {
          assert Triple(cmp, s[Parent(p)].key, s[p].key, s[i].key);
        }
      }
    }
  }

  lemma {:induction false} BubbleOrders<N, K(!new)>(cmp: Cmp<K>, s: seq<Item<N, K>>, c: nat)
    requires GoodCmp(cmp) && c < |s| && OrderedBut(cmp, s, c)
    ensures Ordered(cmp, Bubble(cmp, s, c))
    decreases c
  {
    if c == 0 {
    } else if cmp(s[Parent(c)].key, s[c].key) < 0 {
      assert InOrder(cmp, s, c);
    } else {
      SwapUp(cmp, s, c);
      BubbleOrders(cmp, Swap(s, c, Parent(c)), Parent(c));
    }
  }

  lemma AroundChild<N, K>(cmp: Cmp<K>, s: seq<Item<N, K>>, h: nat, i: nat)
    requires h < |s| && OrderedAround(cmp, s, h) && 0 < i < |s| && Parent(i) == h
    ensures h > 0 ==> cmp(s[Parent(h)].key, s[i].key) <= 0
  {
    if InOrder(cmp, s, i) {
    }
  }

  // Moving the smaller child into the hole keeps the order around it.
  lemma HoleDown<N, K(!new)>(cmp: Cmp<K>, s: seq<Item<N, K>>, h: nat)
    requires GoodCmp(cmp) && h < |s| && Left(h) < |s| && OrderedAround(cmp, s, h)
    ensures var c := Smaller(cmp, s, h); OrderedAround(cmp, s[h := s[c]], c)
  {
    var c := Smaller(cmp, s, h);
    var s' := s[h := s[c]];
    AroundChild(cmp, s, h, c);
    forall i | 0 < i < |s|
      ensures i != c && Parent(i) != c ==> InOrder(cmp, s', i)
      ensures Parent(i) == c ==> cmp(s'[Parent(c)].key, s'[i].key) <= 0
    {
      assert i != h && Parent(i) != h ==> InOrder(cmp, s, i);
      if Parent(i) == h {
        assert i == Left(h) || i == Left(h) + 1;
        assert Triple(cmp, s[i].key, s[c].key, s[i].key) && Triple(cmp, s[c].key, s[i].key, s[i].key);
      }
    }
  }

  lemma {:induction false} DescendOrders<N, K(!new)>(cmp: Cmp<K>, s: seq<Item<N, K>>, h: nat)
    requires GoodCmp(cmp) && h < |s| && OrderedAround(cmp, s, h)
    ensures var r := Descend(cmp, s, h); OrderedAround(cmp, r.items, r.at)
    decreases |s| - h
  {
    if Left(h) >= |s| {
    } else {
      HoleDown(cmp, s, h);
      DescendOrders(cmp, s[h := s[Smaller(cmp, s, h)]], Smaller(cmp, s, h));
    }
  }

  // A leaf has no children to be out of order with.
  lemma LeafBut<N, K>(cmp: Cmp<K>, s: seq<Item<N, K>>, c: nat)
    requires c < |s| && Left(c) >= |s|
    requires forall i {:trigger InOrder(cmp, s, i)} :: 0 < i < |s| && i != c ==> InOrder(cmp, s, i)
    ensures OrderedBut(cmp, s, c)
  {
    forall i | 0 < i < |s|
      ensures Parent(i) != c
    {
    }
  }

  // Inserting keeps the heap order.
  lemma InsertOrders<N, K(!new)>(cmp: Cmp<K>, s: seq<Item<N, K>>, x: Item<N, K>)
    requires GoodCmp(cmp) && Ordered(cmp, s)
    ensures Ordered(cmp, Insert(cmp, s, x))
  {
    var s' := s + [x];
    forall i | 0 < i < |s'| && i != |s|
      ensures InOrder(cmp, s', i)
    {
      assert InOrder(cmp, s, i);
    }
    LeafBut(cmp, s', |s|);
    BubbleOrders(cmp, s', |s|);
  }

  // Extracting from any position keeps the heap order.
  lemma ExtractOrders<N, K(!new)>(cmp: Cmp<K>, s: seq<Item<N, K>>, i: nat)
    requires GoodCmp(cmp) && Ordered(cmp, s) && i < |s|
    ensures Ordered(cmp, Extract(cmp, s, i))
  {
    StartsAround(cmp, s, i);
    DescendOrders(cmp, s, i);
    var max, h := |s| - 1, Descend(cmp, s, i);
    if h.at == max {
      WithoutHole(cmp, h.items, max, h.items[..max]);
    } else {
      var r := h.items[h.at := h.items[max]][..max];
      WithoutHole(cmp, h.items, h.at, r);
      LeafBut(cmp, r, h.at);
      BubbleOrders(cmp, r, h.at);
    }
  }

  // With the hole at a leaf, everything else is in order.
  lemma WithoutHole<N, K>(cmp: Cmp<K>, s: seq<Item<N, K>>, h: nat, r: seq<Item<N, K>>)
    requires h < |s| && Left(h) >= |s| && OrderedAround(cmp, s, h) && |r| < |s|
    requires forall k :: 0 <= k < |r| && k != h ==> r[k] == s[k]
    ensures forall k {:trigger InOrder(cmp, r, k)} :: 0 < k < |r| && k != h ==> InOrder(cmp, r, k)
  {
    forall k | 0 < k < |r| && k != h
      ensures InOrder(cmp, r, k)
    {
      assert Parent(k) != h;
      assert InOrder(cmp, s, k);
    }
  }

  lemma StartsAround<N, K(!new)>(cmp: Cmp<K>, s: seq<Item<N, K>>, h: nat)
    requires GoodCmp(cmp) && Ordered(cmp, s) && h < |s|
    ensures OrderedAround(cmp, s, h)
  {
    forall i | 0 < i < |s| && Parent(i) == h && h > 0
      ensures cmp(s[Parent(h)].key, s[i].key) <= 0
    {
      assert InOrder(cmp, s, i) && InOrder(cmp, s, h);
      assert Triple(cmp, s[Parent(h)].key, s[h].key, s[i].key);
    }
  }

  // The first element of an ordered heap is not after any other.
  lemma {:induction false} FirstIsLeast<N, K(!new)>(cmp: Cmp<K>, s: seq<Item<N, K>>, i: nat)
    requires GoodCmp(cmp) && Ordered(cmp, s) && i < |s|
    ensures cmp(s[0].key, s[i].key) <= 0
    decreases i
  {
    if i == 0 {
      assert Triple(cmp, s[0].key, s[0].key, s[0].key);
    } else {
      FirstIsLeast(cmp, s, Parent(i));
      assert InOrder(cmp, s, i);
      assert Triple(cmp, s[0].key, s[Parent(i)].key, s[i].key);
    }
  }

  // ---------- which element comes first, also among equal ones ----------

  // Nothing above c is before the first element, while c itself may be.
  lemma {:induction false} FirstAbove<N, K(!new)>(cmp: Cmp<K>, s: seq<Item<N, K>>, c: nat, i: nat)
    requires GoodCmp(cmp) && c < |s| && OrderedBut(cmp, s, c) && i < c
    ensures cmp(s[0].key, s[i].key) <= 0
    decreases i
  {
    assert Triple(cmp, s[0].key, s[0].key, s[0].key);
    if i > 0 {
      FirstAbove(cmp, s, c, Parent(i));
      assert InOrder(cmp, s, i);
      assert Triple(cmp, s[0].key, s[Parent(i)].key, s[i].key);
    }
  }

  // An element that bubbles up gets to the front exactly when it is not after the first one.
  lemma {:induction false} BubbleFirst<N, K(!new)>(cmp: Cmp<K>, s: seq<Item<N, K>>, c: nat)
    requires GoodCmp(cmp) && c < |s| && OrderedBut(cmp, s, c)
    ensures Bubble(cmp, s, c)[0] == if c > 0 && cmp(s[0].key, s[c].key) >= 0 then s[c] else s[0]
    decreases c
  {
    if c == 0 {
    } else {
      var p := Parent(c);
      FirstAbove(cmp, s, c, p);
      assert Triple(cmp, s[c].key, s[0].key, s[p].key) && Triple(cmp, s[p].key, s[c].key, s[0].key);
      assert Triple(cmp, s[0].key, s[c].key, s[c].key) && Triple(cmp, s[p].key, s[0].key, s[0].key);
      assert Triple(cmp, s[c].key, s[p].key, s[p].key) && Triple(cmp, s[0].key, s[p].key, s[c].key);
      if cmp(s[p].key, s[c].key) >= 0 {
        SwapUp(cmp, s, c);
        BubbleFirst(cmp, Swap(s, c, p), p);
      }
    }
  }

  // Of equal elements the one inserted last comes first.
  lemma InsertFirst<N, K(!new)>(cmp: Cmp<K>, s: seq<Item<N, K>>, x: Item<N, K>)
    requires GoodCmp(cmp) && Ordered(cmp, s)
    ensures Insert(cmp, s, x)[0] == if s == [] || cmp(s[0].key, x.key) >= 0 then x else s[0]
  {
    var s' := s + [x];
    forall i | 0 < i < |s'| && i != |s|
      ensures InOrder(cmp, s', i)
    {
      assert InOrder(cmp, s, i);
    }
    LeafBut(cmp, s', |s|);
    BubbleFirst(cmp, s', |s|);
  }

  // Below the first element, moving the hole down changes neither the first nor, unless the hole gets
  // there, the last element.
  lemma {:induction false} DescendEnds<N, K>(cmp: Cmp<K>, s: seq<Item<N, K>>, hole: nat)
    requires hole < |s|
    ensures var h := Descend(cmp, s, hole);
      && (hole > 0 ==> h.items[0] == s[0] && h.at > 0) && (h.at != |s| - 1 ==> h.items[|s| - 1] == s[|s| - 1])
    decreases |s| - hole
  {
    if Left(hole) < |s| {
      var c := Smaller(cmp, s, hole);
      DescendEnds(cmp, s[hole := s[c]], c);
    }
  }

  // When the first element has been taken out, its smaller child comes first, the left one of two equal
  // ones, unless the last element is not after that one.
  lemma ExtractFirst<N, K(!new)>(cmp: Cmp<K>, s: seq<Item<N, K>>)
    requires GoodCmp(cmp) && Ordered(cmp, s) && |s| > 1
    ensures var c, last := if |s| > 2 && cmp(s[2].key, s[1].key) < 0 then 2 else 1, |s| - 1;
      Extract(cmp, s, 0)[0] == if c != last && Descend(cmp, s, 0).at != last && cmp(s[c].key, s[last].key) >= 0 then s[last] else s[c]
  {
    StartsAround(cmp, s, 0);
    DescendOrders(cmp, s, 0);
    var max, h, c := |s| - 1, Descend(cmp, s, 0), Smaller(cmp, s, 0);
    assert h == Descend(cmp, s[0 := s[c]], c);
    DescendEnds(cmp, s[0 := s[c]], c);
    if h.at != max {
      var r := h.items[h.at := h.items[max]][..max];
      WithoutHole(cmp, h.items, h.at, r);
      LeafBut(cmp, r, h.at);
      BubbleFirst(cmp, r, h.at);
    }
  }

  // ---------- the elements ----------

  lemma SwapSame<T>(s: seq<T>, i: nat, j: nat)
    requires i < |s| && j < |s| && i != j
    ensures multiset(Swap(s, i, j)) == multiset(s)
  {
    UpdateCount(s, i, s[j]);
    UpdateCount(s[i := s[j]], j, s[i]);
    Cancel(multiset(s), multiset(s[i := s[j]]), multiset(Swap(s, i, j)), s[i], s[j]);
  }

  lemma UpdateCount<T>(s: seq<T>, i: nat, x: T)
    requires i < |s|
    ensures multiset(s[i := x]) + multiset{s[i]} == multiset(s) + multiset{x}
  {
    assert s == s[..i] + [s[i]] + s[i + 1..];
    assert s[i := x] == s[..i] + [x] + s[i + 1..];
  }

  lemma Cancel<T>(a: multiset<T>, b: multiset<T>, c: multiset<T>, x: T, y: T)
    requires b + multiset{x} == a + multiset{y} && c + multiset{y} == b + multiset{x}
    ensures c == a
  {
    forall z
      ensures c[z] == a[z]
    {
      assert (b + multiset{x})[z] == (a + multiset{y})[z] && (c + multiset{y})[z] == (b + multiset{x})[z];
    }
  }

  lemma {:induction false} BubbleSame<N, K>(cmp: Cmp<K>, s: seq<Item<N, K>>, c: nat)
    requires c < |s|
    ensures multiset(Bubble(cmp, s, c)) == multiset(s)
    decreases c
  {
    if c == 0 || cmp(s[Parent(c)].key, s[c].key) < 0 {
    } else {
      SwapSame(s, c, Parent(c));
      BubbleSame(cmp, Swap(s, c, Parent(c)), Parent(c));
    }
  }

  // The elements other than the one at the hole stay the same while the hole moves.
  lemma {:induction false} DescendSame<N, K>(cmp: Cmp<K>, s: seq<Item<N, K>>, h: nat)
    requires h < |s|
    ensures var r := Descend(cmp, s, h);
      multiset(r.items) + multiset{s[h]} == multiset(s) + multiset{r.items[r.at]}
    decreases |s| - h
  {
    if Left(h) >= |s| {
    } else {
      var c := Smaller(cmp, s, h);
      var s' := s[h := s[c]];
      UpdateCount(s, h, s[c]);
      DescendSame(cmp, s', c);
      var r := Descend(cmp, s', c);
      Chain(multiset(s), multiset(s'), multiset(r.items), s[h], s[c], r.items[r.at]);
    }
  }

  lemma Chain<T>(a: multiset<T>, b: multiset<T>, c: multiset<T>, x: T, y: T, z: T)
    requires b + multiset{x} == a + multiset{y} && c + multiset{y} == b + multiset{z}
    ensures c + multiset{x} == a + multiset{z}
  {
    forall w
      ensures (c + multiset{x})[w] == (a + multiset{z})[w]
    {
      assert (b + multiset{x})[w] == (a + multiset{y})[w] && (c + multiset{y})[w] == (b + multiset{z})[w];
    }
  }

  lemma InsertAdds<N, K>(cmp: Cmp<K>, s: seq<Item<N, K>>, x: Item<N, K>)
    ensures multiset(Insert(cmp, s, x)) == multiset(s) + multiset{x}
  {
    BubbleSame(cmp, s + [x], |s|);
  }

  // Extracting removes exactly the element at i.
  lemma ExtractRemoves<N, K>(cmp: Cmp<K>, s: seq<Item<N, K>>, i: nat)
    requires i < |s|
    ensures multiset(Extract(cmp, s, i)) + multiset{s[i]} == multiset(s)
  {
    DescendSame(cmp, s, i);
    var max := |s| - 1;
    var h := Descend(cmp, s, i);
    assert h.items == h.items[..max] + [h.items[max]];
    if h.at == max {
      Drop(multiset(s), multiset(h.items[..max]), s[i], h.items[max]);
    } else {
      var filled := h.items[h.at := h.items[max]];
      UpdateCount(h.items, h.at, h.items[max]);
      assert filled == filled[..max] + [h.items[max]];
      BubbleSame(cmp, filled[..max], h.at);
      Refill(multiset(s), multiset(h.items), multiset(filled[..max]), s[i], h.items[h.at], h.items[max]);
    }
  }

  lemma Drop<T>(a: multiset<T>, b: multiset<T>, x: T, y: T)
    requires (b + multiset{y}) + multiset{x} == a + multiset{y}
    ensures b + multiset{x} == a
  {
    forall w
      ensures (b + multiset{x})[w] == a[w]
    {
      assert ((b + multiset{y}) + multiset{x})[w] == (a + multiset{y})[w];
    }
  }

  lemma Refill<T>(a: multiset<T>, b: multiset<T>, c: multiset<T>, x: T, hole: T, last: T)
    requires b + multiset{x} == a + multiset{hole} && (c + multiset{last}) + multiset{hole} == b + multiset{last}
    ensures c + multiset{x} == a
  {
    forall w
      ensures (c + multiset{x})[w] == a[w]
    {
      assert (b + multiset{x})[w] == (a + multiset{hole})[w];
      assert ((c + multiset{last}) + multiset{hole})[w] == (b + multiset{last})[w];
    }
  }
}
