// The heap of heap.c in place: an array of element pointers that doubles when it is full, and the
// position of every element stored in the element itself. The methods are proved to do what
// HeapSpec says.
module Heap {
  import opened Compare
  import opened HeapSpec

  class Node<K, C> {
    var key: K
    var info: C
    // The field at the heap's offset.
    var heap: int

    constructor (key: K, info: C)
      ensures this.key == key && this.info == info && heap == 0
    {
      this.key, this.info, heap := key, info, 0;
    }
  }

  // The nodes are pairwise different, leaving out position h.
  ghost predicate DistinctBut<N, K>(s: seq<Item<N, K>>, h: int) {
    forall i, j :: 0 <= i < j < |s| && i != h && j != h ==> s[i].node != s[j].node
  }

  ghost function NodesOf<N, K>(s: seq<Item<N, K>>): set<N> {
    set i | 0 <= i < |s| :: s[i].node
  }

  class Heap<K(!new), C> {
    const cmp: Cmp<K>
    // Whether the heap was created with an offset, so that positions are stored.
    const indexed: bool

    var size: nat
    var numElements: nat
    var p: array<Node?<K, C>>

    // The elements in array order.
    ghost var model: seq<Item<Node<K, C>, K>>
    ghost var nodes: set<Node<K, C>>

    // The array holds s, except that nothing is known of position h.
    ghost predicate HoldsBut(s: seq<Item<Node<K, C>, K>>, h: int)
      reads this`p, this`nodes, p, nodes`key
    {
      && |s| <= p.Length
      && (forall i :: 0 <= i < |s| && i != h ==>
            p[i] == s[i].node && s[i].node in nodes && s[i].node.key == s[i].key)
    }

    // Every element knows its position, except the one at h.
    ghost predicate IndexedBut(s: seq<Item<Node<K, C>, K>>, h: int)
      reads this`nodes, nodes`heap
    {
      indexed ==> forall i :: 0 <= i < |s| && i != h && s[i].node in nodes ==> s[i].node.heap == i
    }

    ghost predicate Valid()
      reads this, p, nodes
    {
      && 0 < size == p.Length && numElements == |model|
      && HoldsBut(model, -1) && IndexedBut(model, -1) && DistinctBut(model, -1) && nodes == NodesOf(model)
    }

    // fr_heap_create
    constructor (cmp: Cmp<K>, indexed: bool)
      ensures Valid() && fresh(p) && model == [] && nodes == {} && this.cmp == cmp && this.indexed == indexed
    {
      this.cmp, this.indexed := cmp, indexed;
      size, numElements := 2048, 0;
      p := new Node?<K, C>[2048](_ => null);
      model, nodes := [], {};
    }

    // SET_OFFSET
    method SetOffset(i: nat, ghost s: seq<Item<Node<K, C>, K>>, ghost h: int)
      requires i < |s| && i != h && HoldsBut(s, h) && DistinctBut(s, h)
      requires indexed ==> forall k :: 0 <= k < |s| && k != h && k != i ==> s[k].node.heap == k
      modifies nodes`heap
      ensures IndexedBut(s, h)
      ensures forall n :: n in nodes && n != s[i].node ==> n.heap == old(n.heap)
    {
      if indexed {
        var node: Node<K, C> := p[i];
        node.heap := i;
      }
    }

    // fr_heap_bubble
    method BubbleUp(start: nat, ghost s0: seq<Item<Node<K, C>, K>>)
      requires start < |s0| && HoldsBut(s0, -1) && IndexedBut(s0, start) && DistinctBut(s0, -1)
      modifies p, nodes`heap
      ensures var s := Bubble(cmp, s0, start); HoldsBut(s, -1) && IndexedBut(s, -1) && DistinctBut(s, -1)
    {
      var child: nat := start;
      ghost var s := s0;
      while child > 0
        invariant child < |s| == |s0| && Bubble(cmp, s, child) == Bubble(cmp, s0, start)
        invariant HoldsBut(s, -1) && IndexedBut(s, child) && DistinctBut(s, -1)
      {
        var parent := Parent(child);
        if cmp(p[parent].key, p[child].key) < 0 { break; }
        SwapUp(child, parent, s);
        s := Swap(s, child, parent);
        child := parent;
      }
      SetOffset(child, s, -1);
    }

    // HEAP_SWAP and SET_OFFSET
    method SwapUp(child: nat, parent: nat, ghost s: seq<Item<Node<K, C>, K>>)
      requires parent < child < |s| && HoldsBut(s, -1) && IndexedBut(s, child) && DistinctBut(s, -1)
      modifies p, nodes`heap
      ensures var s' := Swap(s, child, parent); HoldsBut(s', -1) && IndexedBut(s', parent) && DistinctBut(s', -1)
    {
      p[child], p[parent] := p[parent], p[child];
      SetOffset(child, Swap(s, child, parent), parent);
    }

    // When the array is full: one twice as large with the same elements.
    method Double()
      requires Valid()
      modifies this`size, this`p
      ensures Valid() && numElements < size
      ensures if numElements == old(size) then size == 2 * old(size) && fresh(p) else size == old(size) && p == old(p)
    {
      if numElements < size { return; }
      var q := new Node?<K, C>[2 * size](_ => null);
      forall i | 0 <= i < size {
        q[i] := p[i];
      }
      p := q;
      size := size * 2;
    }

    // The elements are s from here on.
    method Settle(ghost s: seq<Item<Node<K, C>, K>>)
      requires 0 < size == p.Length && numElements == |s| && nodes == NodesOf(s)
      requires HoldsBut(s, -1) && IndexedBut(s, -1) && DistinctBut(s, -1)
      modifies this`model
      ensures Valid() && model == s
    {
      model := s;
    }

    // fr_heap_insert
    method Insert(node: Node<K, C>)
      requires Valid() && node !in nodes
      modifies this, p, nodes`heap, node`heap
      ensures Valid() && model == HeapSpec.Insert(cmp, old(model), Item(node, node.key))
      ensures nodes == old(nodes) + {node} && (p == old(p) || fresh(p))
    {
      hide Bubble, HoldsBut, IndexedBut, DistinctBut, NodesOf;
      ghost var m, x := model, Item(node, node.key);
      Double();
      Append(node);
      BubbleUp(numElements - 1, m + [x]);
      InsertAdds(cmp, m, x);
      InsertNodes(m, x, HeapSpec.Insert(cmp, m, x));
      Settle(HeapSpec.Insert(cmp, m, x));
    }

    method Append(node: Node<K, C>)
      requires Valid() && node !in nodes && numElements < size
      modifies this`numElements, this`nodes, p
      ensures numElements == |model| + 1 && nodes == old(nodes) + {node}
      ensures var s := model + [Item(node, node.key)];
        HoldsBut(s, -1) && IndexedBut(s, |model|) && DistinctBut(s, -1)
    {
      p[numElements] := node;
      numElements := numElements + 1;
      nodes := nodes + {node};
    }

    // fr_heap_extract: the first element when data is NULL, else the one whose position data has.
    method Extract(data: Node?<K, C>) returns (ok: bool, ghost i: nat)
      requires Valid()
      modifies this`numElements, this`model, this`nodes, p, nodes`heap
      ensures Valid()
      ensures ok <==> |old(model)| > 0 && (data == null || (indexed && 0 <= old(data.heap) < |old(model)|))
      ensures ok ==> i < |old(model)| && i == (if data == null then 0 else old(data.heap))
      ensures ok && data != null ==> (old(model)[i].node == data <==> data in old(nodes))
      ensures data in old(nodes) && indexed ==> ok
      ensures ok ==> model == HeapSpec.Extract(cmp, old(model), i)
                     && nodes == old(nodes) - {old(model)[i].node}
                     && (indexed ==> old(model)[i].node.heap == -1)
      ensures !ok ==> model == old(model) && nodes == old(nodes)
    {
      i := 0;
      if numElements == 0 { return false, 0; }
      var parent := 0;
      if data != null {
        if !indexed { return false, 0; }
        parent := data.heap;
        if parent < 0 || parent >= numElements { return false, 0; }
      }
      ExtractAt(parent);
      return true, parent;
    }

    method ExtractAt(i: nat)
      requires Valid() && i < numElements
      modifies this`numElements, this`model, this`nodes, p, nodes`heap
      ensures Valid() && model == HeapSpec.Extract(cmp, old(model), i)
      ensures nodes == old(nodes) - {old(model)[i].node} && (indexed ==> old(model)[i].node.heap == -1)
    {
      ghost var m := model;
      ResetOffset(i);
      SiftOut(i, m);
      numElements := numElements - 1;
      ExtractRemoves(cmp, m, i);
      ExtractNodes(m, i, HeapSpec.Extract(cmp, m, i));
      Settle(HeapSpec.Extract(cmp, m, i));
    }

    // RESET_OFFSET; the element at i leaves.
    method ResetOffset(i: nat)
      requires Valid() && i < numElements
      modifies this`nodes, nodes`heap
      ensures HoldsBut(model, i) && IndexedBut(model, i)
      ensures nodes == old(nodes) - {model[i].node} && (indexed ==> model[i].node.heap == -1)
    {
      if indexed {
        var node: Node<K, C> := p[i];
        node.heap := -1;
      }
      nodes := nodes - {model[i].node};
    }

    // Moving the hole down to a leaf, and filling it with the last element.
    method SiftOut(start: nat, ghost m: seq<Item<Node<K, C>, K>>)
      requires start < |m| == numElements && HoldsBut(m, start) && IndexedBut(m, start) && DistinctBut(m, -1)
      modifies p, nodes`heap
      ensures var s := HeapSpec.Extract(cmp, m, start); HoldsBut(s, -1) && IndexedBut(s, -1) && DistinctBut(s, -1)
    {
      var max := numElements - 1;
      var parent: nat := start;
      ghost var s := m;
      while Left(parent) <= max
        invariant parent < |s| == |m| && Descend(cmp, s, parent) == Descend(cmp, m, start)
        invariant HoldsBut(s, parent) && IndexedBut(s, parent) && DistinctBut(s, parent)
        decreases |s| - parent
      {
        var child := PullUp(parent, s);
        s := s[parent := s[child]];
        parent := child;
      }
      if parent != max {
        Refill(parent, s);
      } else {
        LastGone(s);
      }
    }

    lemma LastGone(s: seq<Item<Node<K, C>, K>>)
      requires |s| > 0 && HoldsBut(s, |s| - 1) && IndexedBut(s, |s| - 1) && DistinctBut(s, |s| - 1)
      ensures var r := s[..|s| - 1]; HoldsBut(r, -1) && IndexedBut(r, -1) && DistinctBut(r, -1)
    {
    }

    // The smaller child moves into the hole at parent.
    method PullUp(parent: nat, ghost s: seq<Item<Node<K, C>, K>>) returns (child: nat)
      requires Left(parent) < |s| == numElements
      requires HoldsBut(s, parent) && IndexedBut(s, parent) && DistinctBut(s, parent)
      modifies p, nodes`heap
      ensures child == Smaller(cmp, s, parent)
      ensures var s' := s[parent := s[child]]; HoldsBut(s', child) && IndexedBut(s', child) && DistinctBut(s', child)
    {
      child := Left(parent);
      if child != numElements - 1 && cmp(p[child + 1].key, p[child].key) < 0 {
        child := child + 1;
      }
      p[parent] := p[child];
      SetOffset(parent, s[parent := s[child]], child);
    }

    // hp->p[parent] = hp->p[max]; and bubble up
    method Refill(parent: nat, ghost s: seq<Item<Node<K, C>, K>>)
      requires parent < |s| - 1 == numElements - 1
      requires HoldsBut(s, parent) && IndexedBut(s, parent) && DistinctBut(s, parent)
      modifies p, nodes`heap
      ensures var r := Bubble(cmp, s[parent := s[|s| - 1]][..|s| - 1], parent);
        HoldsBut(r, -1) && IndexedBut(r, -1) && DistinctBut(r, -1)
    {
      p[parent] := p[numElements - 1];
      BubbleUp(parent, s[parent := s[|s| - 1]][..|s| - 1]);
    }

    // fr_heap_peek
    method Peek() returns (r: Node?<K, C>)
      requires Valid()
      ensures r == if model == [] then null else model[0].node
    {
      if numElements == 0 { return null; }
      r := p[0];
    }
  }

  lemma InsertNodes<N, K>(m: seq<Item<N, K>>, x: Item<N, K>, r: seq<Item<N, K>>)
    requires multiset(r) == multiset(m) + multiset{x}
    ensures NodesOf(r) == NodesOf(m) + {x.node} && |r| == |m| + 1
  {
    assert |multiset(r)| == |multiset(m)| + 1;
    forall y | y in r
      ensures y in m || y == x
    {
      assert y in multiset(r);
    }
    forall y | y in m || y == x
      ensures y in r
    {
      assert y in multiset(m) || y == x;
      assert y in multiset(r);
    }
    forall i | 0 <= i < |r|
      ensures r[i].node in NodesOf(m) + {x.node}
    {
      assert r[i] in r;
    }
    forall i | 0 <= i < |m|
      ensures m[i].node in NodesOf(r)
    {
      assert m[i] in r;
    }
    assert x in r;
  }

  lemma ExtractNodes<N, K>(m: seq<Item<N, K>>, i: nat, r: seq<Item<N, K>>)
    requires i < |m| && multiset(r) + multiset{m[i]} == multiset(m) && DistinctBut(m, -1)
    ensures NodesOf(r) == NodesOf(m) - {m[i].node}
  {
    InsertNodes(r, m[i], m);
    if m[i].node in NodesOf(r) {
      var j :| 0 <= j < |r| && r[j].node == m[i].node;
      assert r[j] in multiset(r) && r[j] in multiset(m);
      var k :| 0 <= k < |m| && m[k] == r[j];
      assert k == i;
      assert multiset(r)[m[i]] >= 1;
      Once(m, i);
      assert false;
    }
  }

  lemma Once<N, K>(m: seq<Item<N, K>>, i: nat)
    requires i < |m| && DistinctBut(m, -1)
    ensures multiset(m)[m[i]] == 1
  {
    assert m == m[..i] + [m[i]] + m[i + 1..];
    assert m[i] !in m[..i] && m[i] !in m[i + 1..];
  }
}
