// The hash table of hash.c with its pointers: an array of bucket heads, singly linked chains that
// end in one sentinel node, and operations that update them in place. Every operation is proved to
// do to the value of the table what HashSpec says.
module HashTable {
  import opened Bits
  import opened SplitOrder
  import opened Options
  import opened SplitTable
  import opened HashWalk
  import Spec = HashSpec
  import Links

  class Entry<D(0)> {
    const key: Key
    const reversed: nat
    var next: Entry<D>
    var data: D

    // The sentinel at the end of every chain points to itself.
    constructor Sentinel()
      ensures next == this
    {
      key := 0xffff_ffff;
      reversed := 0xffff_ffff;
      next := this;
      data := *;
    }

    constructor Node(next: Entry<D>, reversed: nat, key: Key, data: D)
      ensures this.next == next && this.reversed == reversed && this.key == key && this.data == data
    {
      this.key := key;
      this.reversed := reversed;
      this.next := next;
      this.data := data;
    }
  }

  // The reversed hash that a node stores is its position.
  lemma ReverseIsPosition(key: Key)
    ensures Reverse(key) == Position(key)
  {
    ReverseIsRev(key);
  }

  class HashTable<D(0)> {
    const ops: Spec.Ops<D>
    const nil: Entry<D>

    var numElements: nat
    var numBuckets: nat
    var nextGrow: nat
    var mask: nat
    var buckets: array<Entry?<D>>

    // The value of the table, the nodes that hold it, and their pointers as a value.
    ghost var model: Table<D>
    ghost var nodes: set<Entry<D>>
    ghost var links: Links.Links<Entry<D>, Item<D>>

    // These maps say what the nodes say, and what the first n heads say. Written as a recursion, so
    // that a method sees the contents only where it asks for them with the lemmas below.
    ghost predicate Says(heads: map<nat, Entry<D>>, next: map<Entry<D>, Entry<D>>, items: map<Entry<D>, Item<D>>,
                         n: nat)
      requires n <= buckets.Length
      reads this`buckets, this`nodes, buckets, nodes
      decreases n
    {
      if n == 0 then NodesSay(heads, next, items) else HeadSays(heads, n - 1) && Says(heads, next, items, n - 1)
    }

    ghost predicate HeadSays(heads: map<nat, Entry<D>>, b: nat)
      requires b < buckets.Length
      reads this`buckets, buckets
    {
      if b in heads then buckets[b] == heads[b] else buckets[b] == null
    }

    ghost predicate NodesSay(heads: map<nat, Entry<D>>, next: map<Entry<D>, Entry<D>>, items: map<Entry<D>, Item<D>>)
      reads this`buckets, this`nodes, nodes
    {
      && (forall b {:trigger b in heads} :: b in heads ==> b < buckets.Length)
      && (forall n {:trigger n in next} :: n in next ==> n in nodes)
      && (forall n {:trigger n in items} :: n in items ==> n in nodes)
      && (forall n {:trigger n in nodes} :: n in nodes ==> n in next && n in items)
      && (forall n {:trigger n.next} :: n in nodes ==> n.next == next[n])
      && (forall n {:trigger n.reversed} :: n in nodes ==> n.reversed == Position(n.key))
      && (forall n {:trigger n.data} {:trigger n.key} :: n in nodes ==> items[n] == Item(n.key, n.data))
    }

    lemma {:induction false} SaysIff(heads: map<nat, Entry<D>>, next: map<Entry<D>, Entry<D>>,
                                     items: map<Entry<D>, Item<D>>, n: nat)
      requires n <= buckets.Length
      ensures Says(heads, next, items, n)
        <==> NodesSay(heads, next, items) && forall b :: 0 <= b < n ==> HeadSays(heads, b)
    {
      if n > 0 {
        SaysIff(heads, next, items, n - 1);
      }
    }

    ghost predicate Tied()
      reads this`links, this`buckets, this`nodes, buckets, nodes
    {
      links.nil == nil && Says(links.heads, links.next, links.items, buckets.Length)
    }

    // What the snapshot says of a node is true of it.
    lemma NodeTied(n: Entry<D>)
      requires Tied()
      ensures n in nodes <==> n in links.next
      ensures n in nodes <==> n in links.items
      ensures n in nodes ==>
        n.next == links.next[n] && n.reversed == Position(n.key) && links.items[n] == Item(n.key, n.data)
    {
      SaysIff(links.heads, links.next, links.items, buckets.Length);
    }

    lemma HeadTied(b: nat)
      requires Tied() && b < buckets.Length
      ensures if b in links.heads then buckets[b] == links.heads[b] else buckets[b] == null
    {
      SaysIff(links.heads, links.next, links.items, buckets.Length);
      assert HeadSays(links.heads, b);
    }

    lemma HeadsBounded()
      requires Tied()
      ensures forall b :: b in links.heads ==> b < buckets.Length
    {
      SaysIff(links.heads, links.next, links.items, buckets.Length);
    }

    // The i-th node of chain b, its link and its contents.
    lemma Visit(b: nat, i: nat)
      requires Sound() && b < |model.buckets| && i < |links.chains[b]|
      ensures model.buckets[b].Some? && |model.buckets[b].value| == |links.chains[b]|
      ensures var c := links.chains[b];
        && c[i] in nodes && c[i] != nil && c[i].next == Links.At(c, nil, i + 1)
        && model.buckets[b].value[i] == Item(c[i].key, c[i].data) && c[i].reversed == Position(c[i].key)
    {
      Links.Follow(links, model.buckets, b, i);
      NodeTied(links.chains[b][i]);
    }

    // The i-th node of c, where chain b is the tail of c from s on.
    lemma VisitTail(b: nat, c: seq<Entry<D>>, s: nat, i: nat)
      requires Sound() && b < |model.buckets| && s <= i < |c| && links.chains[b] == c[s..]
      ensures c[i] != nil && c[i].next == Links.At(c, nil, i + 1)
    {
      Visit(b, i - s);
    }

    // The head of a bucket is NULL, or it starts the bucket's chain.
    lemma Start(b: nat)
      requires Sound() && b < |model.buckets|
      ensures buckets[b] == null <==> model.buckets[b].None?
      ensures buckets[b] != null ==>
        buckets[b] == Links.At(links.chains[b], nil, 0) && |model.buckets[b].value| == |links.chains[b]|
    {
      Links.First(links, model.buckets, b);
      HeadTied(b);
    }

    // The pointers form disjoint chains that hold the value.
    ghost predicate Sound()
      reads this`links, this`model, this`buckets, this`nodes, buckets, nodes
    {
      Tied() && |model.buckets| == buckets.Length && Links.Linked(links, model.buckets)
    }

    // The counters agree with the value.
    ghost predicate Counted()
      reads this`numElements, this`numBuckets, this`nextGrow, this`mask, this`model
    {
      && numBuckets == |model.buckets| && mask == numBuckets - 1
      && numElements == model.count
      && nextGrow == Spec.NextGrow(model.log)
    }

    ghost predicate Valid()
      reads this, buckets, nodes
    {
      Counted() && Sound() && Spec.Valid(ops, model)
    }

    constructor (ops: Spec.Ops<D>)
      ensures Valid() && model == Spec.Create() && this.ops == ops
      ensures fresh(buckets) && nodes == {}
    {
      this.ops := ops;
      var sentinel := new Entry<D>.Sentinel();
      nil := sentinel;
      numElements, numBuckets, mask := 0, 64, 63;
      nextGrow := 160;
      var heads := new Entry?<D>[64](_ => null);
      heads[0] := sentinel;
      buckets := heads;
      model, nodes := Spec.Create(), {};
      links := Links.Links(map[0 := sentinel], map[], map[], sentinel, seq(64, _ => []), map[]);
      new;
      Spec.CreateValid(ops);
      Pow2Values();
      Links.EmptyLinked(links, model.buckets);
      assert NodesSay(links.heads, links.next, links.items);
      SaysIff(links.heads, links.next, links.items, 64);
    }

    // The two places a link can be stored in, behind the pointer-to-pointer `last` of the source: a
    // bucket head and the next field of a node. The ghost arguments are the snapshot and the value
    // from here on.
    method SetHead(b: nat, to: Entry<D>, ghost after: Links.Links<Entry<D>, Item<D>>, ghost value: Table<D>)
      requires Tied() && b < buckets.Length
      requires after.nil == nil && after.items == links.items && after.next == links.next
      requires after.heads == links.heads[b := to]
      modifies this`links, this`model, buckets
      ensures Tied() && links == after && model == value
    {
      SaysIff(links.heads, links.next, links.items, buckets.Length);
      buckets[b] := to;
      links, model := after, value;
      forall a | 0 <= a < buckets.Length
        ensures HeadSays(links.heads, a)
      {
        assert a != b ==> old(HeadSays(links.heads, a));
      }
      assert NodesSay(links.heads, links.next, links.items);
      SaysIff(links.heads, links.next, links.items, buckets.Length);
    }

    method SetNext(node: Entry<D>, to: Entry<D>, ghost after: Links.Links<Entry<D>, Item<D>>, ghost value: Table<D>)
      requires Tied() && node in nodes
      requires after.nil == nil && after.items == links.items && after.heads == links.heads
      requires after.next == links.next[node := to]
      modifies this`links, this`model, node`next
      ensures Tied() && links == after && model == value
    {
      SaysIff(links.heads, links.next, links.items, buckets.Length);
      node.next := to;
      links, model := after, value;
      forall a | 0 <= a < buckets.Length
        ensures HeadSays(links.heads, a)
      {
        assert old(HeadSays(links.heads, a));
      }
      assert NodesSay(links.heads, links.next, links.items);
      SaysIff(links.heads, links.next, links.items, buckets.Length);
    }

    // A node whose next field has been set joins the table.
    method AddNode(ghost node: Entry<D>, ghost after: Links.Links<Entry<D>, Item<D>>)
      requires Tied() && node !in nodes && node.reversed == Position(node.key)
      requires after.nil == nil && after.heads == links.heads && after.next == links.next[node := node.next]
      requires after.items == links.items[node := Item(node.key, node.data)]
      modifies this`links, this`nodes
      ensures Tied() && links == after && nodes == old(nodes) + {node}
    {
      SaysIff(links.heads, links.next, links.items, buckets.Length);
      nodes := nodes + {node};
      links := after;
      forall a | 0 <= a < buckets.Length
        ensures HeadSays(links.heads, a)
      {
        assert old(HeadSays(links.heads, a));
      }
      assert NodesSay(links.heads, links.next, links.items);
      SaysIff(links.heads, links.next, links.items, buckets.Length);
    }

    // A node that no link leads to leaves the table.
    method DropNode(ghost node: Entry<D>, ghost after: Links.Links<Entry<D>, Item<D>>, ghost value: Table<D>)
      requires Tied() && node in nodes
      requires after.nil == nil && after.heads == links.heads
      requires after.next == links.next - {node} && after.items == links.items - {node}
      modifies this`links, this`nodes, this`model
      ensures Tied() && links == after && model == value && nodes == old(nodes) - {node}
    {
      SaysIff(links.heads, links.next, links.items, buckets.Length);
      nodes := nodes - {node};
      links, model := after, value;
      forall a | 0 <= a < buckets.Length
        ensures HeadSays(links.heads, a)
      {
        assert old(HeadSays(links.heads, a));
      }
      assert NodesSay(links.heads, links.next, links.items);
      SaysIff(links.heads, links.next, links.items, buckets.Length);
    }

    // *last = &null; buckets[r] = cur;
    method Cut(ghost b: nat, ghost k: nat, last: Entry?<D>, p: nat, r: nat, cur: Entry<D>)
      requires Sound()
      requires b < |links.chains| && r < |links.chains| && r != b && model.buckets[r].None?
      requires k < |links.chains[b]| && cur == links.chains[b][k]
      requires last == if k == 0 then null else links.chains[b][k - 1]
      requires p < buckets.Length && (last == null ==> p == b)
      modifies this`links, this`model, buckets, nodes`next
      ensures Sound() && links == Links.Cut(old(links), b, k, r)
      ensures |Links.Value(old(model).buckets[b])| == |old(links).chains[b]|
      ensures model == old(model).(buckets := Links.CutBuckets(old(model).buckets, b, k, r))
    {
      Links.CutLinked(links, model.buckets, b, k, r);
      if last != null {
        NodeTied(last);
      }
      ghost var after, c := Links.Cut(links, b, k, r), links.chains[b];
      ghost var value := model.(buckets := Links.CutBuckets(model.buckets, b, k, r));
      if last == null {
        SetHead(p, nil, links.(heads := links.heads[b := nil]), model);
        SetHead(r, cur, after, value);
      } else {
        SetNext(last, nil, links.(next := links.next[c[k - 1] := nil]), model);
        SetHead(r, cur, after, value);
      }
    }

    // list_find
    method ListFind(ghost b: nat, head: Entry<D>, reversed: nat, d: D) returns (r: Entry?<D>, ghost at: Option<nat>)
      requires Sound() && b < |model.buckets| && model.buckets[b].Some?
      requires head == buckets[b] && reversed == Position(ops.hash(d))
      ensures at == Spec.ListFind(ops, model.buckets[b].value, d)
      ensures at.Some? ==> at.value < |links.chains[b]| && r == links.chains[b][at.value]
      ensures at.None? ==> r == null
    {
      Start(b);
      ghost var c, items := links.chains[b], model.buckets[b].value;
      var cur := head;
      ghost var i := 0;
      at := Spec.ListFind(ops, items, d);
      while cur != nil
        invariant i <= |c| == |items| && cur == Links.At(c, nil, i)
        invariant at == Spec.ListFind(ops, items, d, i)
        decreases |c| - i
      {
        Visit(b, i);
        if cur.reversed == reversed {
          var cmp := ops.Cmp(d, cur.data);
          if cmp > 0 { break; }
          if cmp == 0 { return cur, at; }
        } else if cur.reversed > reversed {
          break;
        }
        cur := cur.next;
        i := i + 1;
      }
      if i < |c| {
        Visit(b, i);
      }
      r := null;
    }

    // The loop of list_insert: the link to change, or that an equal item is in the chain.
    method InsertPlace(b: nat, node: Entry<D>) returns (ok: bool, last: Entry?<D>, ghost at: Option<nat>)
      requires Sound()
      requires b < |model.buckets| && model.buckets[b].Some? && node.key == ops.hash(node.data)
      requires node.reversed == Position(node.key)
      ensures at == Spec.ListInsertAt(ops, model.buckets[b].value, node.data) && (ok <==> at.Some?)
      ensures |links.chains[b]| == |model.buckets[b].value|
      ensures ok ==> last == if at.value == 0 then null else links.chains[b][at.value - 1]
    {
      Start(b);
      ghost var c, items := links.chains[b], model.buckets[b].value;
      var cur := buckets[b];
      last := null;
      ghost var i, k: nat := 0, 0;
      at := Spec.ListInsertAt(ops, items, node.data);
      while cur != nil
        invariant i <= |c| == |items| && cur == Links.At(c, nil, i) && k == i
        invariant last == if k == 0 then null else c[k - 1]
        invariant at == Spec.ListInsertAt(ops, items, node.data, i)
        decreases |c| - i
      {
        Visit(b, i);
        if cur.reversed > node.reversed { break; }
        last := cur;
        k := i + 1;
        if cur.reversed == node.reversed {
          var cmp := ops.Cmp(node.data, cur.data);
          if cmp > 0 { break; }
          if cmp == 0 { return false, last, at; }
        }
        cur := cur.next;
        i := i + 1;
      }
      if i < |c| {
        Visit(b, i);
      }
      assert at == Some(k);
      ok := true;
    }

    // list_insert
    method ListInsert(b: nat, node: Entry<D>) returns (ok: bool, ghost at: Option<nat>)
      requires Sound()
      requires b < |model.buckets| && model.buckets[b].Some?
      requires node !in nodes && node != nil && node.key == ops.hash(node.data)
      requires node.reversed == Position(node.key)
      modifies this`links, this`model, this`nodes, buckets, nodes`next, node`next
      ensures at == Spec.ListInsertAt(ops, old(model).buckets[b].value, node.data) && (ok <==> at.Some?)
      ensures Sound()
      ensures if ok then nodes == old(nodes) + {node} else nodes == old(nodes)
      ensures model == if ok then old(model).(buckets := old(model).buckets[b :=
                         Some(Spec.InsertedAt(old(model).buckets[b].value, at.value, Item(node.key, node.data)))])
                       else old(model)
    {
      var last;
      ok, last, at := InsertPlace(b, node);
      if ok {
        LinkIn(b, at.value, last, node);
      }
    }

    // node->next = *last; *last = node;
    method LinkIn(b: nat, ghost k: nat, last: Entry?<D>, node: Entry<D>)
      requires Sound() && b < |model.buckets| && model.buckets[b].Some?
      requires node !in nodes && node != nil && node.reversed == Position(node.key)
      requires k <= |links.chains[b]| && last == if k == 0 then null else links.chains[b][k - 1]
      modifies this`links, this`model, this`nodes, buckets, nodes`next, node`next
      ensures |Links.Value(old(model).buckets[b])| == |old(links).chains[b]|
      ensures Sound() && nodes == old(nodes) + {node}
      ensures model == old(model).(buckets :=
                Links.SpliceBuckets(old(model).buckets, b, k, Item(node.key, node.data)))
    {
      if last == null {
        LinkFirst(b, node);
      } else {
        LinkAfter(b, k, last, node);
      }
    }

    method LinkFirst(b: nat, node: Entry<D>)
      requires Sound() && b < |model.buckets| && model.buckets[b].Some?
      requires node !in nodes && node != nil && node.reversed == Position(node.key)
      modifies this`links, this`model, this`nodes, buckets, node`next
      ensures |Links.Value(old(model).buckets[b])| == |old(links).chains[b]|
      ensures Sound() && nodes == old(nodes) + {node}
      ensures model == old(model).(buckets :=
                Links.SpliceBuckets(old(model).buckets, b, 0, Item(node.key, node.data)))
    {
      ghost var x := Item(node.key, node.data);
      NodeTied(node);
      Links.SpliceLinked(links, model.buckets, b, 0, node, x);
      HeadTied(b);
      ghost var after := Links.Splice(links, b, 0, node, x);
      node.next := buckets[b];
      AddNode(node, links.(next := links.next[node := links.heads[b]], items := after.items));
      SetHead(b, node, after, model.(buckets := Links.SpliceBuckets(model.buckets, b, 0, x)));
    }

    method LinkAfter(ghost b: nat, ghost k: nat, last: Entry<D>, node: Entry<D>)
      requires Sound() && b < |model.buckets| && model.buckets[b].Some?
      requires node !in nodes && node != nil && node.reversed == Position(node.key)
      requires 0 < k <= |links.chains[b]| && last == links.chains[b][k - 1]
      modifies this`links, this`model, this`nodes, nodes`next, node`next
      ensures |Links.Value(old(model).buckets[b])| == |old(links).chains[b]|
      ensures Sound() && nodes == old(nodes) + {node}
      ensures model == old(model).(buckets :=
                Links.SpliceBuckets(old(model).buckets, b, k, Item(node.key, node.data)))
    {
      hide Position;
      ghost var x := Item(node.key, node.data);
      NodeTied(node);
      Links.SpliceLinked(links, model.buckets, b, k, node, x);
      NodeTied(last);
      ghost var after := Links.Splice(links, b, k, node, x);
      node.next := last.next;
      AddNode(node, links.(next := links.next[node := links.next[last]], items := after.items));
      SetNext(last, node, after, model.(buckets := Links.SpliceBuckets(model.buckets, b, k, x)));
    }

    // The loop of list_delete: the link that leads to the node.
    method DeletePlace(b: nat, node: Entry<D>, ghost k: nat) returns (last: Entry?<D>)
      requires Sound()
      requires b < |model.buckets| && k < |links.chains[b]| && node == links.chains[b][k]
      ensures last == if k == 0 then null else links.chains[b][k - 1]
    {
      Start(b);
      Visit(b, k);
      ghost var c := links.chains[b];
      var cur := buckets[b];
      last := null;
      ghost var i := 0;
      while cur != nil
        invariant i <= k && cur == c[i] && last == if i == 0 then null else c[i - 1]
        decreases k - i
      {
        if cur == node { break; }
        Visit(b, i);
        last := cur;
        cur := cur.next;
        i := i + 1;
      }
      Visit(b, i);
      Links.Position(links, model.buckets, b, i, k);
    }

    // list_delete
    method ListDelete(b: nat, node: Entry<D>, ghost k: nat)
      requires Sound()
      requires b < |model.buckets| && k < |links.chains[b]| && node == links.chains[b][k]
      modifies this`links, this`model, this`nodes, buckets, nodes`next
      ensures |Links.Value(old(model).buckets[b])| == |old(links).chains[b]|
      ensures Sound() && nodes == old(nodes) - {node}
      ensures model == old(model).(buckets := Links.UnlinkBuckets(old(model).buckets, b, k))
    {
      var last := DeletePlace(b, node, k);
      LinkOut(b, k, last, node);
    }

    // *last = node->next;
    method LinkOut(b: nat, ghost k: nat, last: Entry?<D>, node: Entry<D>)
      requires Sound()
      requires b < |model.buckets| && b < |links.chains| && k < |links.chains[b]| && node == links.chains[b][k]
      requires last == if k == 0 then null else links.chains[b][k - 1]
      modifies this`links, this`model, this`nodes, buckets, nodes`next
      ensures |Links.Value(old(model).buckets[b])| == |old(links).chains[b]|
      ensures Sound() && nodes == old(nodes) - {node}
      ensures model == old(model).(buckets := Links.UnlinkBuckets(old(model).buckets, b, k))
    {
      Links.UnlinkLinked(links, model.buckets, b, k);
      NodeTied(node);
      if last != null {
        NodeTied(last);
      }
      ghost var after, c := Links.Unlink(links, b, k), links.chains[b];
      ghost var value := model.(buckets := Links.UnlinkBuckets(model.buckets, b, k));
      if last == null {
        SetHead(b, node.next, links.(heads := after.heads), model);
      } else {
        SetNext(last, node.next, links.(next := links.next[c[k - 1] := links.next[c[k]]]), model);
      }
      DropNode(node, after, value);
    }

    // fr_hash_table_fixup
    method Fixup(entry: nat)
      requires Sound() && Inv(model) && mask == |model.buckets| - 1
      requires entry < |model.buckets| && model.buckets[entry].None?
      modifies this`links, this`model, buckets, nodes`next
      ensures Sound() && model == SplitTable.Fixup(old(model), entry)
      decreases entry
    {
      hide Links.Linked, Placed, Sorted;
      Pow2Monotone(model.log, MAX_LOG);
      Pow2Values();
      var parent := ParentOf(entry);
      ParentOfIsParent(entry);
      Start(parent);
      if buckets[parent] == null {
        FixupKeeps(model, parent);
        Fixup(parent);
      }
      SplitChain(parent);
      FillNull(entry);
    }

    // A bucket that is still NULL after the split is empty.
    method FillNull(entry: nat)
      requires Sound() && entry < |model.buckets|
      modifies this`links, this`model, buckets
      ensures Sound() && model == if old(model).buckets[entry].None? then Fill(old(model), entry) else old(model)
    {
      Start(entry);
      if buckets[entry] == null {
        Links.FillLinked(links, model.buckets, entry);
        SetHead(entry, nil, links.(heads := links.heads[entry := nil]), Fill(model, entry));
      }
    }

    // The loop of fixup: walk the chain of bucket p and cut it where the bucket changes.
    method SplitChain(p: nat)
      requires Sound() && Inv(model) && mask == |model.buckets| - 1
      requires p < |model.buckets| && model.buckets[p].Some?
      modifies this`links, this`model, buckets, nodes`next
      ensures Sound() && model == Split(old(model), p)
    {
      hide Placed, Sorted, WalkBucket, Slot, Split, Tied;
      ghost var t, c := model, links.chains[p];
      Start(p);
      WalkedStart(t, p);
      var last: Entry?<D>, cur, here := null, buckets[p], p;
      ghost var i: nat, s: nat := 0, 0;
      while cur != nil
        invariant Sound() && Walked(t, model, p, i, s, here)
        invariant |c| == |Chain(t.buckets, p)|
        invariant cur == Links.At(c, nil, i) && last == if i == 0 then null else c[i - 1]
        invariant links.chains[here] == c[s..]
        decreases |c| - i
      {
        var next;
        here, s, next := SplitTurn(t, p, i, s, here, c, last, cur);
        last, cur := cur, next;
        i := i + 1;
      }
      if i < |c| {
        VisitTail(here, c, s, i);
      }
      WalkedEnd(t, model, p, s, here);
    }

    // One node of that loop.
    // One turn of that loop.
    method SplitTurn(ghost t: Table<D>, p: nat, ghost i: nat, ghost s: nat, here: nat, ghost c: seq<Entry<D>>,
                     last: Entry?<D>, cur: Entry<D>) returns (here': nat, ghost s': nat, next: Entry<D>)
      requires Sound() && Inv(t) && mask == |t.buckets| - 1
      requires p < |t.buckets| && t.buckets[p].Some? && Walked(t, model, p, i, s, here)
      requires i < |c| == |Chain(t.buckets, p)| && links.chains[here] == c[s..]
      requires cur == c[i] && last == if i == 0 then null else c[i - 1]
      modifies this`links, this`model, buckets, nodes`next
      ensures Sound() && Walked(t, model, p, i + 1, s', here') && links.chains[here'] == c[s'..]
      ensures next == Links.At(c, nil, i + 1)
    {
      hide Placed, Sorted, WalkBucket, Slot, Tied;
      here', s' := SplitStep(t, p, i, s, here, c, last, cur);
      VisitTail(here', c, s', i);
      next := cur.next;
    }

    method SplitStep(ghost t: Table<D>, p: nat, ghost i: nat, ghost s: nat, here: nat, ghost c: seq<Entry<D>>,
                     last: Entry?<D>, cur: Entry<D>) returns (here': nat, ghost s': nat)
      requires Sound() && Inv(t) && mask == |t.buckets| - 1
      requires p < |t.buckets| && t.buckets[p].Some? && Walked(t, model, p, i, s, here)
      requires i < |c| == |Chain(t.buckets, p)| && links.chains[here] == c[s..]
      requires cur == c[i] && last == if i == 0 then null else c[i - 1]
      modifies this`links, this`model, buckets, nodes`next
      ensures Sound() && Walked(t, model, p, i + 1, s', here') && links.chains[here'] == c[s'..]
    {
      here', s' := here, s;
      var slot := BucketOf(t, p, i, s, here, c, cur);
      if slot != here {
        CutHere(t, p, i, s, here, c, last, slot, cur);
        here', s' := slot, i;
      } else {
        WalkedSame(t, model, p, i, s, here);
      }
    }

    // cur->key & ht->mask
    method BucketOf(ghost t: Table<D>, ghost p: nat, ghost i: nat, ghost s: nat, ghost here: nat,
                    ghost c: seq<Entry<D>>, cur: Entry<D>) returns (slot: nat)
      requires Sound() && mask == |t.buckets| - 1 && Shape(t)
      requires p < |t.buckets| && Walked(t, model, p, i, s, here)
      requires i < |c| == |Chain(t.buckets, p)| && links.chains[here] == c[s..] && cur == c[i]
      ensures slot == Slot(Chain(t.buckets, p)[i].key, t.log)
    {
      Visit(here, i - s);
      assert model.buckets[here] == WalkBucket(t, p, i, s, here, here);
      slot := And(cur.key, mask);
      AndMask(cur.key, t.log);
    }

    // Cut p's chain before its i-th node, the first one of another bucket.
    method CutHere(ghost t: Table<D>, p: nat, ghost i: nat, ghost s: nat, ghost here: nat, ghost c: seq<Entry<D>>,
                   last: Entry?<D>, slot: nat, cur: Entry<D>)
      requires Sound() && Inv(t)
      requires p < |t.buckets| && t.buckets[p].Some? && Walked(t, model, p, i, s, here)
      requires i < |c| == |Chain(t.buckets, p)| && links.chains[here] == c[s..]
      requires cur == c[i] && last == if i == 0 then null else c[i - 1]
      requires slot == Slot(Chain(t.buckets, p)[i].key, t.log) != here
      modifies this`links, this`model, buckets, nodes`next
      ensures Sound() && Walked(t, model, p, i + 1, i, slot) && links.chains[slot] == c[i..]
    {
      hide Placed, Sorted;
      WalkedCut(t, model, p, i, s, here, slot);
      assert c[s..][i - s] == c[i] && c[s..][i - s..] == c[i..];
      Cut(here, i - s, last, p, slot, cur);
    }

    // if (!ht->buckets[i]) fr_hash_table_fixup(ht, i);
    method FillAt(i: nat)
      requires Sound() && Inv(model) && mask == |model.buckets| - 1 && i < |model.buckets|
      modifies this`links, this`model, buckets, nodes`next
      ensures Sound() && model == Touch(old(model), i)
    {
      Start(i);
      if buckets[i] == null {
        Fixup(i);
      }
    }

    method Hashed(d: D) returns (key: Key, reversed: nat)
      ensures key == ops.hash(d) && reversed == Position(key)
    {
      key := ops.hash(d);
      reversed := Reverse(key);
      ReverseIsPosition(key);
    }

    // key & ht->mask, and the bucket filled: how every operation starts.
    method Reach(key: Key) returns (entry: nat)
      requires Sound() && Inv(model) && mask == |model.buckets| - 1
      modifies this`links, this`model, buckets, nodes`next
      ensures Sound() && entry == Slot(key, old(model).log) && model == Touch(old(model), entry)
      ensures buckets[entry] != null
    {
      entry := And(key, mask);
      AndMask(key, model.log);
      FillAt(entry);
      Start(entry);
    }

    // Another array with the same heads and NULL above them.
    method SetArray(heads: array<Entry?<D>>, ghost after: Links.Links<Entry<D>, Item<D>>, ghost value: Table<D>)
      requires Tied() && buckets.Length <= heads.Length
      requires forall b :: 0 <= b < heads.Length ==> heads[b] == if b < buckets.Length then buckets[b] else null
      requires after.nil == nil && after.heads == links.heads && after.next == links.next && after.items == links.items
      modifies this`buckets, this`links, this`model
      ensures Tied() && links == after && model == value && buckets == heads
    {
      SaysIff(links.heads, links.next, links.items, buckets.Length);
      buckets := heads;
      links, model := after, value;
      forall a | 0 <= a < buckets.Length
        ensures HeadSays(links.heads, a)
      {
        assert a < old(buckets.Length) ==> old(HeadSays(links.heads, a));
      }
      assert NodesSay(links.heads, links.next, links.items);
      SaysIff(links.heads, links.next, links.items, buckets.Length);
    }

    // A fresh array: the old heads below, NULL above.
    method CopyHeads(n: nat) returns (heads: array<Entry?<D>>)
      requires buckets.Length <= n
      ensures fresh(heads) && heads.Length == n
      ensures forall b :: 0 <= b < n ==> heads[b] == if b < buckets.Length then buckets[b] else null
    {
      heads := new Entry?<D>[n];
      var i := 0;
      while i < n
        invariant i <= n
        invariant forall b :: 0 <= b < i ==> heads[b] == if b < buckets.Length then buckets[b] else null
        modifies heads
      {
        heads[i] := if i < buckets.Length then buckets[i] else null;
        i := i + 1;
      }
    }

    // fr_hash_table_grow
    method Grow()
      requires Sound() && Counted() && Shape(model)
      modifies this`links, this`model, this`buckets, this`numBuckets, this`nextGrow, this`mask
      ensures Sound() && Counted() && model == Spec.Grow(old(model)) && fresh(buckets)
    {
      GrowArray();
      Spec.NextGrowDoubles(old(model).log);
      numBuckets := numBuckets * 2;
      nextGrow := nextGrow * 2;
      mask := numBuckets - 1;
    }

    method GrowArray()
      requires Sound() && numBuckets == |model.buckets|
      modifies this`links, this`model, this`buckets
      ensures Sound() && model == Spec.Grow(old(model)) && fresh(buckets)
    {
      hide Placed, Sorted;
      HeadsBounded();
      Links.GrowLinked(links, model.buckets, numBuckets);
      ghost var after := links.(chains := links.chains + seq(numBuckets, _ => []));
      var heads := CopyHeads(2 * numBuckets);
      SetArray(heads, after, Spec.Grow(model));
    }

    // fr_hash_table_insert
    method Insert(d: D) returns (ok: bool)
      requires Valid() && numElements + 1 < Spec.MAX_ELEMENTS
      modifies this, buckets, nodes`next
      ensures Valid() && ok == Spec.Inserted(ops, old(model), d) && model == Spec.AfterInsert(ops, old(model), d)
      ensures fresh(nodes - old(nodes)) && (buckets == old(buckets) || fresh(buckets))
    {
      Spec.InsertKeeps(ops, model, d);
      ok := InsertItem(d);
    }

    method InsertItem(d: D) returns (ok: bool)
      requires Sound() && Counted() && Inv(model)
      modifies this, buckets, nodes`next
      ensures Sound() && Counted()
      ensures ok == Spec.Inserted(ops, old(model), d) && model == Spec.AfterInsert(ops, old(model), d)
      ensures fresh(nodes - old(nodes)) && (buckets == old(buckets) || fresh(buckets))
    {
      var key, reversed := Hashed(d);
      var entry := Reach(key);
      assert nodes == old(nodes) && buckets == old(buckets);
      ok := InsertAndGrow(entry, d, key, reversed);
    }

    method InsertAndGrow(entry: nat, d: D, key: Key, reversed: nat) returns (ok: bool)
      requires Sound() && Counted() && Shape(model) && entry < |model.buckets| && model.buckets[entry].Some?
      requires key == ops.hash(d) && reversed == Position(key)
      modifies this, buckets, nodes`next
      ensures Sound() && Counted() && model == Spec.InsertInto(ops, old(model), entry, d)
      ensures ok == Spec.ListInsertAt(ops, old(model).buckets[entry].value, d).Some?
      ensures fresh(nodes - old(nodes)) && (buckets == old(buckets) || fresh(buckets))
    {
      ok := InsertInto(entry, d, key, reversed);
      if ok && numElements >= nextGrow {
        Grow();
      }
    }

    method InsertInto(entry: nat, d: D, key: Key, reversed: nat) returns (ok: bool)
      requires Sound() && Counted() && entry < |model.buckets| && model.buckets[entry].Some?
      requires key == ops.hash(d) && reversed == Position(key)
      modifies this`links, this`model, this`nodes, this`numElements, buckets, nodes`next
      ensures Sound() && Counted() && fresh(nodes - old(nodes))
      ensures var c := old(model).buckets[entry].value;
        var at := Spec.ListInsertAt(ops, c, d);
        && (ok <==> at.Some?)
        && model == if ok then Spec.Put(old(model), entry, Spec.InsertedAt(c, at.value, ops.ItemOf(d)), old(model).count + 1)
                    else old(model)
    {
      var node := NewNode(reversed, key, d);
      ghost var at;
      ok, at := ListInsert(entry, node);
      if ok {
        SetCount(numElements + 1);
      }
    }

    method NewNode(reversed: nat, key: Key, d: D) returns (node: Entry<D>)
      requires Sound()
      ensures Sound() && fresh(node)
      ensures node.reversed == reversed && node.key == key && node.data == d
    {
      node := new Entry<D>.Node(nil, reversed, key, d);
    }

    method SetCount(n: nat)
      requires Sound()
      modifies this`numElements, this`model
      ensures Sound() && numElements == n && model == old(model).(count := n)
    {
      numElements := n;
      model := model.(count := n);
    }

    // fr_hash_table_find
    method Find(d: D) returns (node: Entry?<D>, entry: nat, ghost at: Option<nat>)
      requires Sound() && Inv(model) && mask == |model.buckets| - 1
      modifies this`links, this`model, buckets, nodes`next
      ensures Sound() && model == Spec.AfterFind(ops, old(model), d) && entry == Spec.SlotOf(ops, old(model), d)
      ensures at == Spec.ListFind(ops, Spec.ChainOf(ops, old(model), d), d)
      ensures at.None? ==> node == null
      ensures at.Some? ==> at.value < |links.chains[entry]| && node == links.chains[entry][at.value]
    {
      var key, reversed := Hashed(d);
      entry := Reach(key);
      node, at := ListFind(entry, buckets[entry], reversed, d);
    }

    // fr_hash_table_finddata
    method FindData(d: D) returns (r: Option<D>)
      requires Valid()
      modifies this`links, this`model, buckets, nodes`next
      ensures Valid() && r == Spec.Found(ops, old(model), d) && model == Spec.AfterFind(ops, old(model), d)
    {
      ghost var after := Spec.AfterFind(ops, model, d);
      Spec.FindKeeps(ops, model, d);
      r := FindItem(d);
      ValidAt(after);
    }

    lemma ValidAt(t: Table<D>)
      requires Counted() && Sound() && model == t && Spec.Valid(ops, t)
      ensures Valid()
    {
    }

    method FindItem(d: D) returns (r: Option<D>)
      requires Sound() && Counted() && Inv(model)
      modifies this`links, this`model, buckets, nodes`next
      ensures Sound() && Counted() && r == Spec.Found(ops, old(model), d) && model == Spec.AfterFind(ops, old(model), d)
    {
      var node, entry; ghost var at;
      node, entry, at := Find(d);
      if node == null {
        r := None;
      } else {
        Visit(entry, at.value);
        r := Some(node.data);
      }
    }

    // node->data = data
    method SetData(node: Entry<D>, d: D, ghost entry: nat, ghost k: nat)
      requires Sound() && entry < |model.buckets| && k < |links.chains[entry]| && node == links.chains[entry][k]
      modifies this`links, this`model, node`data
      ensures |old(model).buckets| == |model.buckets| && k < |Links.Value(old(model).buckets[entry])|
      ensures Sound() && model == old(model).(buckets :=
        old(model).buckets[entry := Some(Links.Value(old(model).buckets[entry])[k := Item(node.key, d)])])
    {
      NodeTied(node);
      Visit(entry, k);
      ghost var x := Item(node.key, d);
      Links.SetLinked(links, model.buckets, entry, k, x);
      WriteData(node, d, model.(buckets := model.buckets[entry := Some(Links.Value(model.buckets[entry])[k := x])]));
    }

    method WriteData(node: Entry<D>, d: D, ghost value: Table<D>)
      requires Tied() && node in nodes
      modifies this`links, this`model, node`data
      ensures Tied() && links == old(links).(items := old(links).items[node := Item(node.key, d)]) && model == value
    {
      SaysIff(links.heads, links.next, links.items, buckets.Length);
      node.data := d;
      links, model := links.(items := links.items[node := Item(node.key, d)]), value;
      forall a | 0 <= a < buckets.Length
        ensures HeadSays(links.heads, a)
      {
        assert old(HeadSays(links.heads, a));
      }
      assert NodesSay(links.heads, links.next, links.items);
      SaysIff(links.heads, links.next, links.items, buckets.Length);
    }

    // fr_hash_table_replace
    method Replace(d: D) returns (ok: bool)
      requires Valid() && numElements + 1 < Spec.MAX_ELEMENTS
      modifies this, buckets, nodes
      ensures Valid() && ok == Spec.Replaced(ops, old(model), d) && model == Spec.AfterReplace(ops, old(model), d)
      ensures fresh(nodes - old(nodes)) && (buckets == old(buckets) || fresh(buckets))
    {
      Spec.ReplaceKeeps(ops, model, d);
      Spec.FindKeeps(ops, model, d);
      ok := ReplaceItem(d);
    }

    method ReplaceItem(d: D) returns (ok: bool)
      requires Sound() && Counted() && Inv(model) && Inv(Spec.AfterFind(ops, model, d))
      modifies this, buckets, nodes
      ensures Sound() && Counted()
      ensures ok == Spec.Replaced(ops, old(model), d) && model == Spec.AfterReplace(ops, old(model), d)
      ensures fresh(nodes - old(nodes)) && (buckets == old(buckets) || fresh(buckets))
    {
      var node, entry; ghost var at;
      node, entry, at := Find(d);
      if node == null {
        ok := InsertItem(d);
      } else {
        Visit(entry, at.value);
        SetData(node, d, entry, at.value);
        ok := true;
      }
    }

    // fr_hash_table_yank
    method Yank(d: D) returns (r: Option<D>)
      requires Valid()
      modifies this`links, this`model, this`nodes, this`numElements, buckets, nodes`next
      ensures Valid() && r == Spec.Found(ops, old(model), d) && model == Spec.AfterYank(ops, old(model), d)
      ensures nodes <= old(nodes)
    {
      Spec.YankKeeps(ops, model, d);
      Spec.FindKeeps(ops, model, d);
      r := YankItem(d);
    }

    method YankItem(d: D) returns (r: Option<D>)
      requires Sound() && Counted() && Inv(model) && Spec.Valid(ops, Spec.AfterFind(ops, model, d))
      modifies this`links, this`model, this`nodes, this`numElements, buckets, nodes`next
      ensures Sound() && Counted()
      ensures r == Spec.Found(ops, old(model), d) && model == Spec.AfterYank(ops, old(model), d)
      ensures nodes <= old(nodes)
    {
      var node, entry; ghost var at;
      node, entry, at := Find(d);
      if node == null {
        return None;
      }
      Spec.UpdateRemoved(ops, model, entry, at.value);
      r := Remove(entry, node, at.value);
    }

    method Remove(entry: nat, node: Entry<D>, ghost k: nat) returns (r: Option<D>)
      requires Sound() && Counted() && model.count > 0
      requires entry < |model.buckets| && k < |links.chains[entry]| && node == links.chains[entry][k]
      modifies this`links, this`model, this`nodes, this`numElements, buckets, nodes`next
      ensures Sound() && Counted() && nodes <= old(nodes)
      ensures k < |Chain(old(model).buckets, entry)| && r == Some(Chain(old(model).buckets, entry)[k].data)
      ensures model == Spec.Put(old(model), entry, Spec.RemovedAt(Chain(old(model).buckets, entry), k),
                                old(model).count - 1)
    {
      Visit(entry, k);
      r := Some(node.data);
      ListDelete(entry, node, k);
      SetCount(numElements - 1);
    }

    // fr_hash_table_walk: the callback's last result, and the items it was given.
    method Walk(callback: D -> int) returns (rcode: int, ghost visited: seq<Item<D>>)
      requires Valid()
      modifies this`links, this`model, buckets, nodes`next
      ensures Valid() && Contents(model.buckets) == Contents(old(model).buckets)
      ensures Tour(visited, rcode) == Toured(WalkItems(old(model), |old(model).buckets|), callback)
      ensures rcode == 0 ==> model == WalkTable(old(model), |old(model).buckets|)
    {
      ghost var t, at := model, 0;
      TouredAll(t, callback);
      rcode, visited, at := WalkDown(callback);
      WalkedValid(ops, t, at);
    }

    method WalkDown(callback: D -> int) returns (rcode: int, ghost visited: seq<Item<D>>, ghost at: nat)
      requires Sound() && Counted() && Inv(model)
      modifies this`links, this`model, buckets, nodes`next
      ensures Sound() && Counted() && at <= |old(model).buckets| && model == TouchedTo(old(model), at)
      ensures Tour(visited, rcode) == TouredFrom(old(model), callback, |old(model).buckets|)
      ensures rcode == 0 ==> at == 0
    {
      ghost var t := model;
      var i: nat := numBuckets;
      while i > 0
        invariant Sound() && Counted() && i <= numBuckets == |t.buckets| && model == TouchedTo(t, i)
        invariant TouredFrom(t, callback, |t.buckets|) == TouredFrom(t, callback, i)
      {
        i := i - 1;
        rcode, visited := WalkOne(t, i, callback);
        if rcode != 0 { return rcode, visited, i; }
      }
      TouredAll(t, callback);
      return 0, WalkItems(t, |t.buckets|), 0;
    }

    // One bucket of the walk, after those above it.
    method WalkOne(ghost t: Table<D>, i: nat, callback: D -> int) returns (rcode: int, ghost visited: seq<Item<D>>)
      requires Sound() && Counted() && Inv(t) && i < |t.buckets| && model == TouchedTo(t, i + 1)
      modifies this`links, this`model, buckets, nodes`next
      ensures Sound() && Counted() && model == TouchedTo(t, i)
      ensures TouredFrom(t, callback, i + 1) == if rcode == 0 then TouredFrom(t, callback, i) else Tour(visited, rcode)
    {
      TouchedStep(t, i);
      FillBucket(i, TouchedTo(t, i));
      TouredBucket(t, callback, i);
      rcode, visited := WalkChain(i, callback);
      visited := VisitedTo(t, i + 1) + visited;
    }

    method FillBucket(i: nat, ghost after: Table<D>)
      requires Sound() && Counted() && Inv(model) && i < |model.buckets| && after == Touch(model, i)
      modifies this`links, this`model, buckets, nodes`next
      ensures Sound() && Counted() && model == after
    {
      FillAt(i);
    }

    // The loop over the chain of a filled bucket.
    method WalkChain(b: nat, callback: D -> int) returns (rcode: int, ghost visited: seq<Item<D>>)
      requires Sound() && b < |model.buckets| && model.buckets[b].Some?
      ensures Tour(visited, rcode) == Toured(Chain(model.buckets, b), callback)
    {
      Start(b);
      ghost var c, items := links.chains[b], model.buckets[b].value;
      var node := buckets[b];
      ghost var i := 0;
      while node != nil
        invariant i <= |c| == |items| && node == Links.At(c, nil, i)
        invariant Toured(items, callback) == Toured(items, callback, i)
        decreases |c| - i
      {
        Visit(b, i);
        rcode := callback(node.data);
        if rcode != 0 {
          return rcode, items[..i + 1];
        }
        node := node.next;
        i := i + 1;
      }
      if i < |c| {
        Visit(b, i);
      }
      return 0, items;
    }

    // The items of bucket b from the k-th on; none when the iterator has just been initialised.
    ghost function RestAt(b: nat, k: nat): seq<Item<D>>
      reads this`model
    {
      if b < |model.buckets| && k <= |Chain(model.buckets, b)| then Chain(model.buckets, b)[k..] else []
    }

    // The iterator's node is the k-th of its bucket b.
    ghost predicate IterAt(b: nat, node: Entry<D>, k: nat)
      reads this`model, this`links
    {
      && b <= |model.buckets| == |links.chains|
      && if b == |model.buckets| then node == nil
         else model.buckets[b].Some? && k <= |links.chains[b]| && node == Links.At(links.chains[b], nil, k)
    }

    // fr_hash_table_iter_next, with the iterator's bucket and node as they are and as they become.
    method Next(bucket: nat, node: Entry<D>, ghost k: nat)
      returns (bucket': nat, node': Entry<D>, ghost k': nat, out: Option<D>)
      requires Valid() && IterAt(bucket, node, k)
      modifies this`links, this`model, buckets, nodes`next
      ensures Valid() && IterAt(bucket', node', k')
      ensures NextIs(IterNext(old(model), bucket, old(RestAt(bucket, k))), bucket', k', out)
    {
      IterCases(model, bucket, RestAt(bucket, k));
      if node != nil {
        bucket', k' := bucket, k + 1;
        node', out := IterStep(bucket, node, k);
      } else {
        IterEnd(bucket, k);
        if bucket == 0 {
          return bucket, node, k, None;
        }
        bucket', node', k', out := NextBucket(bucket);
      }
    }

    // The table, the iterator and the result are those of r.
    ghost predicate NextIs(r: Iter<D>, bucket': nat, k': nat, out: Option<D>)
      reads this`model
    {
      r.table == model && r.bucket == bucket' && r.rest == RestAt(bucket', k') && out == DataOf(r.out)
    }

    method NextBucket(bucket: nat) returns (bucket': nat, node': Entry<D>, ghost k': nat, out: Option<D>)
      requires Valid() && 0 < bucket <= |model.buckets|
      modifies this`links, this`model, buckets, nodes`next
      ensures Valid() && IterAt(bucket', node', k')
      ensures NextIs(IterDown(old(model), bucket - 1), bucket', k', out)
    {
      hide IterDown, Touch;
      ghost var goal := IterDown(model, bucket - 1);
      bucket', node', out := NextDown(bucket - 1, goal);
      k' := if out.Some? then 1 else 0;
    }

    ghost function DataOf(x: Option<Item<D>>): Option<D> {
      if x.Some? then Some(x.value.data) else None
    }

    lemma IterEnd(b: nat, k: nat)
      requires Valid() && IterAt(b, nil, k)
      ensures RestAt(b, k) == []
    {
      if b < |model.buckets| {
        Start(b);
        if k < |links.chains[b]| {
          Visit(b, k);
        }
      }
    }

    // The next node of the current chain.
    method IterStep(b: nat, node: Entry<D>, ghost k: nat) returns (node': Entry<D>, out: Option<D>)
      requires Valid() && IterAt(b, node, k) && node != nil
      ensures IterAt(b, node', k + 1)
      ensures RestAt(b, k) != [] && RestAt(b, k + 1) == RestAt(b, k)[1..] && out == Some(RestAt(b, k)[0].data)
    {
      Start(b);
      Visit(b, k);
      out := Some(node.data);
      node' := node.next;
    }

    // What bucket i gave: its first node, or nothing, with the buckets below still to be tried.
    ghost predicate Tried(i: nat, node: Entry<D>, out: Option<D>, goal: Iter<D>)
      reads this`model, this`links
    {
      if out.Some? then
        && IterAt(i, node, 1)
        && goal.table == model && goal.bucket == i && goal.rest == RestAt(i, 1) && out == DataOf(goal.out)
      else if i == 0 then
        IterAt(0, node, 0) && RestAt(0, 0) == [] && goal == Iter(model, 0, [], None)
      else
        Seeks(model, i - 1, goal)
    }

    // The first node of the nearest bucket from i down that has one.
    method NextDown(start: nat, ghost goal: Iter<D>)
      returns (bucket': nat, node': Entry<D>, out: Option<D>)
      requires Valid() && start < |model.buckets| && Seeks(model, start, goal)
      modifies this`links, this`model, buckets, nodes`next
      ensures Valid() && bucket' < |model.buckets| && Tried(bucket', node', out, goal) && (out.None? ==> bucket' == 0)
    {
      hide Seeks, IterDown, Touch, Valid, Tried;
      bucket' := start;
      node', out := TryBucket(start, goal);
      while out.None? && bucket' > 0
        invariant Valid() && bucket' < |model.buckets| && Tried(bucket', node', out, goal)
        decreases bucket'
      {
        bucket', node', out := TryBelow(bucket', node', goal);
      }
    }

    method TryBelow(above: nat, ghost node: Entry<D>, ghost goal: Iter<D>)
      returns (i: nat, node': Entry<D>, out: Option<D>)
      requires Valid() && 0 < above < |model.buckets| && Tried(above, node, None, goal)
      modifies this`links, this`model, buckets, nodes`next
      ensures i == above - 1
      ensures Valid() && i < |model.buckets| && Tried(i, node', out, goal)
    {
      hide Seeks, IterDown, Touch;
      i := above - 1;
      node', out := TryBucket(i, goal);
    }

    method TryBucket(i: nat, ghost goal: Iter<D>) returns (node': Entry<D>, out: Option<D>)
      requires Valid() && i < |model.buckets| && Seeks(model, i, goal)
      modifies this`links, this`model, buckets, nodes`next
      ensures Valid() && i < |model.buckets| && Tried(i, node', out, goal)
    {
      hide Seeks, IterDown, Touch, Valid, IterAt, Chain;
      ghost var t := model;
      FillValid(i);
      SeekTurn(t, i, goal, model);
      node', out := IterFirst(i);
    }

    method FillValid(i: nat)
      requires Valid() && i < |model.buckets|
      modifies this`links, this`model, buckets, nodes`next
      ensures Valid() && model == Touch(old(model), i)
    {
      hide Touch, Links.Linked, Tied, Placed, Sorted;
      Spec.TouchValid(ops, model, i);
      ghost var after := Touch(model, i);
      FillAt(i);
      ValidAt(after);
    }

    // The head of a filled bucket.
    method IterFirst(i: nat) returns (node': Entry<D>, out: Option<D>)
      requires Valid() && i < |model.buckets| && model.buckets[i].Some?
      ensures out.Some? <==> Chain(model.buckets, i) != []
      ensures if out.Some? then IterAt(i, node', 1) && out.value == Chain(model.buckets, i)[0].data else IterAt(i, node', 0)
    {
      Start(i);
      node' := buckets[i];
      if node' != nil {
        node', out := IterStep(i, node', 0);
      } else {
        IterEnd(i, 0);
        out := None;
      }
    }
  }
}
