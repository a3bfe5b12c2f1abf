// Flattening the side bar's tree (treeToList of sideBarTree.js): a breadth-first walk that takes the
// children away as it goes, and what it makes of a tree built from a list.
module SideBarList {
  import opened Compare
  import opened Options
  import opened SideBarTree

  ghost predicate NoDup(s: seq<Node>) {
    forall i, j :: 0 <= i < j < |s| ==> s[i] != s[j]
  }

  // Of the elements in the list, r have been put out, in an order that has parents first, and q are
  // next: exactly the roots and the children of what has been put out.
  ghost predicate Flat(list: seq<Node>, root: Option<int>, r: seq<Node>, q: seq<Node>) {
    && NoDup(r + q)
    && (forall n :: n in r ==> n in list) && (forall n :: n in q ==> n in list)
    && (forall n :: n in list ==> (n in r || n in q <==> Some(n.pid) == root || HasId(r, n.pid)))
    && (forall k {:trigger Has(r, r[k].pid, k)} :: 0 <= k < |r| ==> Some(r[k].pid) == root || Has(r, r[k].pid, k))
  }

  // The children of an element, in any order.
  ghost predicate KidsOf(list: seq<Node>, root: Option<int>, id: int, kids: seq<Node>) {
    && NoDup(kids)
    && (forall n :: n in kids ==> n in list && n.pid == id && root != Some(id))
    && (forall n :: n in list && n.pid == id && root != Some(id) ==> n in kids)
  }

  lemma {:induction false} HasGrows(r: seq<Node>, x: Node, id: int, n: nat)
    requires n <= |r|
    ensures Has(r + [x], id, n) == Has(r, id, n)
  {
    if n > 0 {
      HasGrows(r, x, id, n - 1);
    }
  }

  lemma HasIdGrows(r: seq<Node>, x: Node, id: int)
    ensures HasId(r + [x], id) <==> HasId(r, id) || x.id == id
  {
    HasGrows(r, x, id, |r|);
  }

  // An element with the id of q's first is q's first, so it has not been put out.
  lemma FirstIsNew(list: seq<Node>, root: Option<int>, r: seq<Node>, q: seq<Node>)
    requires IdsUnique(list) && Flat(list, root, r, q) && q != []
    ensures !HasId(r, q[0].id)
  {
    HasIff(r, q[0].id, |r|);
    forall i | 0 <= i < |r|
      ensures r[i].id != q[0].id
    {
      assert (r + q)[i] == r[i] && (r + q)[|r|] == q[0];
      assert r[i] in list && q[0] in list;
    }
  }

  lemma KidsAreNew(list: seq<Node>, root: Option<int>, r: seq<Node>, q: seq<Node>, kids: seq<Node>)
    requires IdsUnique(list) && Flat(list, root, r, q) && q != [] && KidsOf(list, root, q[0].id, kids)
    ensures forall n :: n in kids ==> n !in r + q
  {
    FirstIsNew(list, root, r, q);
    forall n | n in kids
      ensures n !in r + q
    {
      assert n in list && n.pid == q[0].id;
      assert n in r || n in q <==> Some(n.pid) == root || HasId(r, n.pid);
    }
  }

  lemma StepMembers(list: seq<Node>, root: Option<int>, r: seq<Node>, q: seq<Node>, kids: seq<Node>, n: Node)
    requires (root.Some? ==> !HasId(list, root.value)) && Flat(list, root, r, q) && q != []
    requires KidsOf(list, root, q[0].id, kids) && n in list
    ensures n in r + [q[0]] || n in q[1..] + kids <==> Some(n.pid) == root || HasId(r + [q[0]], n.pid)
  {
    var x := q[0];
    IdInList(list, x);
    HasIdGrows(r, x, n.pid);
    assert q == [x] + q[1..];
    assert n in r + [x] || n in q[1..] + kids <==> n in r || n in q || n in kids;
  }

  lemma StepOrder(list: seq<Node>, root: Option<int>, r: seq<Node>, q: seq<Node>, k: nat)
    requires Flat(list, root, r, q) && q != [] && k <= |r|
    ensures var r' := r + [q[0]]; Some(r'[k].pid) == root || Has(r', r'[k].pid, k)
  {
    var r' := r + [q[0]];
    HasGrows(r, q[0], r'[k].pid, k);
    if k < |r| {
      assert Some(r[k].pid) == root || Has(r, r[k].pid, k);
    } else {
      assert q[0] in list && q[0] in q;
    }
  }

  // One turn of the loop: the first of the queue is put out and its children join the queue.
  lemma FlatStep(list: seq<Node>, root: Option<int>, r: seq<Node>, q: seq<Node>, kids: seq<Node>)
    requires IdsUnique(list) && (root.Some? ==> !HasId(list, root.value)) && Flat(list, root, r, q) && q != []
    requires KidsOf(list, root, q[0].id, kids)
    ensures Flat(list, root, r + [q[0]], q[1..] + kids)
  {
    var r', q' := r + [q[0]], q[1..] + kids;
    KidsAreNew(list, root, r, q, kids);
    JoinNoDup(r + q, kids);
    assert (r + q) + kids == r' + q';
    forall n | n in list
      ensures n in r' || n in q' <==> Some(n.pid) == root || HasId(r', n.pid)
    {
      StepMembers(list, root, r, q, kids, n);
    }
    forall k | 0 <= k < |r'|
      ensures Some(r'[k].pid) == root || Has(r', r'[k].pid, k)
    {
      StepOrder(list, root, r, q, k);
    }
  }

  lemma IdInList(list: seq<Node>, x: Node)
    requires x in list
    ensures HasId(list, x.id)
  {
    HasIff(list, x.id, |list|);
  }

  lemma JoinNoDup(a: seq<Node>, b: seq<Node>)
    requires NoDup(a) && NoDup(b) && forall n :: n in b ==> n !in a
    ensures NoDup(a + b)
  {
    forall i, j | 0 <= i < j < |a + b|
      ensures (a + b)[i] != (a + b)[j]
    {
      if i < |a| <= j {
        assert (a + b)[i] == a[i] && (a + b)[j] == b[j - |a|];
        assert b[j - |a|] in b && a[i] in a;
      }
    }
  }

  // ---------- the children that listToTree made ----------

  lemma {:induction false} KidIff(list: seq<Node>, root: Option<int>, id: int, n: nat, x: Node)
    requires n <= |list|
    ensures x in Kids(list, root, id, n) <==> x in list[..n] && x.pid == id && root != Some(id)
  {
    if n > 0 {
      KidIff(list, root, id, n - 1, x);
      assert list[..n] == list[..n - 1] + [list[n - 1]];
    }
  }

  lemma {:induction false} KidsOnce(list: seq<Node>, root: Option<int>, id: int, n: nat)
    requires n <= |list| && NoDup(list)
    ensures NoDup(Kids(list, root, id, n))
  {
    if n > 0 {
      KidsOnce(list, root, id, n - 1);
      KidIff(list, root, id, n - 1, list[n - 1]);
    }
  }

  // Before they are sorted by label, the children are in the order of the list.
  lemma {:induction false} KidsInOrder(list: seq<Node>, root: Option<int>, id: int, n: nat, i: nat, j: nat)
    returns (a: nat, b: nat)
    requires n <= |list| && i < j < |Kids(list, root, id, n)|
    ensures a < b < n && list[a] == Kids(list, root, id, n)[i] && list[b] == Kids(list, root, id, n)[j]
  {
    var before := Kids(list, root, id, n - 1);
    if j < |before| {
      a, b := KidsInOrder(list, root, id, n - 1, i, j);
    } else {
      b := n - 1;
      KidIff(list, root, id, n - 1, before[i]);
      assert before[i] in before;
      a :| 0 <= a < n - 1 && list[..n - 1][a] == before[i];
    }
  }

  lemma {:induction false} RootIff(list: seq<Node>, root: Option<int>, n: nat, x: Node)
    requires n <= |list|
    ensures x in Roots(list, root, n) <==> x in list[..n] && Some(x.pid) == root
  {
    if n > 0 {
      RootIff(list, root, n - 1, x);
      assert list[..n] == list[..n - 1] + [list[n - 1]];
    }
  }

  // The roots come in the order of the list.
  lemma {:induction false} RootsInOrder(list: seq<Node>, root: Option<int>, n: nat, i: nat, j: nat) returns (a: nat, b: nat)
    requires n <= |list| && i < j < |Roots(list, root, n)|
    ensures a < b < n && list[a] == Roots(list, root, n)[i] && list[b] == Roots(list, root, n)[j]
  {
    var before := Roots(list, root, n - 1);
    if j < |before| {
      a, b := RootsInOrder(list, root, n - 1, i, j);
    } else {
      b := n - 1;
      RootIff(list, root, n - 1, before[i]);
      assert before[i] in before;
      a :| 0 <= a < n - 1 && list[..n - 1][a] == before[i];
    }
  }

  lemma {:induction false} RootsOnce(list: seq<Node>, root: Option<int>, n: nat)
    requires n <= |list| && NoDup(list)
    ensures NoDup(Roots(list, root, n))
  {
    if n > 0 {
      RootsOnce(list, root, n - 1);
      RootIff(list, root, n - 1, list[n - 1]);
    }
  }

  lemma {:induction false} NoDupCount(s: seq<Node>, x: Node)
    requires NoDup(s)
    ensures multiset(s)[x] == if x in s then 1 else 0
  {
    if s != [] {
      assert s == [s[0]] + s[1..];
      NoDupCount(s[1..], x);
    }
  }

  lemma {:induction false} CountNoDup(s: seq<Node>)
    requires forall x :: multiset(s)[x] <= 1
    ensures NoDup(s)
  {
    if s != [] {
      assert s == [s[0]] + s[1..];
      forall x
        ensures multiset(s[1..])[x] <= 1
      {
        assert multiset(s)[x] == multiset{s[0]}[x] + multiset(s[1..])[x];
      }
      CountNoDup(s[1..]);
      assert multiset(s)[s[0]] == 1 + multiset(s[1..])[s[0]];
      assert s[0] !in multiset(s[1..]);
    }
  }

  // Two lists with the same elements, once each.
  lemma SameElements(a: seq<Node>, b: seq<Node>)
    requires NoDup(a) && NoDup(b) && forall x :: x in a <==> x in b
    ensures multiset(a) == multiset(b)
  {
    forall x
      ensures multiset(a)[x] == multiset(b)[x]
    {
      NoDupCount(a, x);
      NoDupCount(b, x);
    }
  }

  lemma Rearranged(a: seq<Node>, b: seq<Node>)
    requires NoDup(a) && multiset(a) == multiset(b)
    ensures NoDup(b)
  {
    forall x
      ensures multiset(b)[x] <= 1
    {
      NoDupCount(a, x);
    }
    CountNoDup(b);
  }

  lemma SameMember(a: seq<Node>, b: seq<Node>, x: Node)
    requires multiset(a) == multiset(b)
    ensures x in a <==> x in b
  {
    assert x in a <==> x in multiset(a);
    assert x in b <==> x in multiset(b);
  }

  // The children of an element after listToTree, when it had none before.
  function ChildrenOf(cmp: Cmp<string>, list: seq<Node>, root: Option<int>, id: int): Option<seq<Node>> {
    Grown(cmp, None, Kids(list, root, id, |list|))
  }

  lemma ChildrenAre(cmp: Cmp<string>, list: seq<Node>, root: Option<int>, id: int)
    requires GoodCmp(cmp) && NoDup(list)
    ensures var c := ChildrenOf(cmp, list, root, id);
      && KidsOf(list, root, id, Value(c))
      && (c.Some? ==> Sorted(cmp, c.value))
  {
    AllKids(list, root, id);
    var kids := Kids(list, root, id, |list|);
    if kids != [] {
      SortedKids(cmp, list, root, id, kids);
    }
  }

  lemma AllKids(list: seq<Node>, root: Option<int>, id: int)
    requires NoDup(list)
    ensures KidsOf(list, root, id, Kids(list, root, id, |list|))
  {
    var kids := Kids(list, root, id, |list|);
    KidsOnce(list, root, id, |list|);
    assert list[..|list|] == list;
    forall n | n in kids
      ensures n in list && n.pid == id && root != Some(id)
    {
      KidIff(list, root, id, |list|, n);
    }
    forall n | n in list && n.pid == id && root != Some(id)
      ensures n in kids
    {
      KidIff(list, root, id, |list|, n);
    }
  }

  lemma SortedKids(cmp: Cmp<string>, list: seq<Node>, root: Option<int>, id: int, kids: seq<Node>)
    requires GoodCmp(cmp) && KidsOf(list, root, id, kids)
    ensures KidsOf(list, root, id, Sort(cmp, [] + kids)) && Sorted(cmp, Sort(cmp, [] + kids))
  {
    assert [] + kids == kids;
    var sorted := Sort(cmp, kids);
    SortSorts(cmp, kids);
    Rearranged(kids, sorted);
    forall n | n in sorted
      ensures n in list && n.pid == id && root != Some(id)
    {
      SameMember(kids, sorted, n);
    }
    forall n | n in list && n.pid == id && root != Some(id)
      ensures n in sorted
    {
      SameMember(kids, sorted, n);
    }
  }

  // ---------- treeToList ----------

  lemma UniqueNoDup(list: seq<Node>)
    requires IdsUnique(list)
    ensures NoDup(list)
  {
  }

  lemma FlatStart(list: seq<Node>, root: Option<int>)
    requires IdsUnique(list)
    ensures Flat(list, root, [], Roots(list, root, |list|))
  {
    var q := Roots(list, root, |list|);
    UniqueNoDup(list);
    RootsOnce(list, root, |list|);
    assert [] + q == q && list[..|list|] == list;
    forall n | n in q
      ensures n in list
    {
      RootIff(list, root, |list|, n);
    }
    forall n | n in list
      ensures n in q <==> Some(n.pid) == root || HasId([], n.pid)
    {
      RootIff(list, root, |list|, n);
    }
  }

  function Value(c: Option<seq<Node>>): seq<Node> {
    if c.Some? then c.value else []
  }

  // Every element has its children, as a snapshot tells them.
  ghost predicate Forest(list: seq<Node>, root: Option<int>, was: map<Node, Option<seq<Node>>>) {
    && (forall n :: n in list ==> n in was)
    && (forall n {:trigger was[n]} :: n in list ==> KidsOf(list, root, n.id, Value(was[n])))
  }

  // Of the first m elements of the list, those that have been put out have no children left, and the
  // others still have theirs.
  ghost predicate Left(list: seq<Node>, was: map<Node, Option<seq<Node>>>, r: seq<Node>, m: nat)
    requires m <= |list|
    reads Elements(list)
  {
    m == 0 || (
      && list[m - 1] in was && list[m - 1].children == (if list[m - 1] in r then None else was[list[m - 1]])
      && Left(list, was, r, m - 1))
  }

  lemma {:induction false} LeftIff(list: seq<Node>, was: map<Node, Option<seq<Node>>>, r: seq<Node>, m: nat)
    requires m <= |list|
    ensures Left(list, was, r, m) <==> forall i :: 0 <= i < m ==>
      list[i] in was && list[i].children == (if list[i] in r then None else was[list[i]])
  {
    if m > 0 {
      LeftIff(list, was, r, m - 1);
    }
  }

  // treeToList, for a tree whose elements are those of a list. Breadth first: the tree comes first, and then
  // the children of everything that is put out, in the order in which it is put out. Each element's children are taken away
  // when it is put out.
  method TreeToList(tree: seq<Node>, ghost list: seq<Node>, ghost root: Option<int>, ghost was: map<Node, Option<seq<Node>>>)
    returns (result: seq<Node>)
    requires IdsUnique(list) && (root.Some? ==> !HasId(list, root.value))
    requires tree == Roots(list, root, |list|) && Forest(list, root, was) && Left(list, was, [], |list|)
    modifies Elements(list)`children
    ensures Flat(list, root, result, []) && Left(list, was, result, |list|)
    ensures result == tree + Offspring(was, result)
  {
    FlatStart(list, root);
    var queen := tree;
    result := [];
    while queen != []
      invariant Flat(list, root, result, queen) && Left(list, was, result, |list|)
      invariant result + queen == tree + Offspring(was, result)
      decreases Elements(list) - Elements(result)
    {
      var first := queen[0];
      NotYetOut(list, root, result, queen);
      var kids := TakeOne(list, was, result, first);
      FlatStep(list, root, result, queen, kids);
      OffspringNext(was, tree, result, queen, kids);
      OneLess(list, result, first);
      queen := queen[1..] + kids;
      result := result + [first];
    }
  }

  // The children of the elements in r, one element's after the other's.
  function Offspring(was: map<Node, Option<seq<Node>>>, r: seq<Node>): seq<Node> {
    if r == [] then []
    else Offspring(was, r[..|r| - 1]) + (if r[|r| - 1] in was then Value(was[r[|r| - 1]]) else [])
  }

  lemma OffspringNext(was: map<Node, Option<seq<Node>>>, tree: seq<Node>, r: seq<Node>, q: seq<Node>, kids: seq<Node>)
    requires q != [] && r + q == tree + Offspring(was, r) && q[0] in was && kids == Value(was[q[0]])
    ensures (r + [q[0]]) + (q[1..] + kids) == tree + Offspring(was, r + [q[0]])
  {
    assert (r + [q[0]])[..|r|] == r;
    assert (r + [q[0]]) + (q[1..] + kids) == (r + q) + kids;
    assert tree + Offspring(was, r + [q[0]]) == (tree + Offspring(was, r)) + kids;
  }

  lemma OneLess(list: seq<Node>, r: seq<Node>, x: Node)
    requires x in list && x !in r
    ensures Elements(list) - Elements(r + [x]) < Elements(list) - Elements(r)
  {
    assert x in Elements(list) - Elements(r) && x in r + [x];
  }

  method TakeOne(ghost list: seq<Node>, ghost was: map<Node, Option<seq<Node>>>, ghost r: seq<Node>, first: Node)
    returns (kids: seq<Node>)
    requires first in list && first !in r && Left(list, was, r, |list|)
    modifies first`children
    ensures first in was && kids == Value(was[first]) && Left(list, was, r + [first], |list|)
  {
    LeftIff(list, was, r, |list|);
    kids := Detach(first);
    LeftIff(list, was, r + [first], |list|);
  }

  // The children, taken away from the element.
  method Detach(first: Node) returns (kids: seq<Node>)
    modifies first`children
    ensures kids == Value(old(first.children)) && first.children == None
  {
    kids := [];
    if first.children.Some? {
      kids := kids + first.children.value;
      first.children := None;
    }
  }

  lemma NotYetOut(list: seq<Node>, root: Option<int>, r: seq<Node>, q: seq<Node>)
    requires Flat(list, root, r, q) && q != []
    ensures q[0] in list && q[0] !in r
  {
    assert q[0] in q;
    forall i | 0 <= i < |r|
      ensures r[i] != q[0]
    {
      assert (r + q)[i] == r[i] && (r + q)[|r|] == q[0];
    }
  }

  // ---------- when nothing is lost ----------

  // The parent relation has no cycles: every element but the roots is further down than its parent.
  ghost predicate Ranked(list: seq<Node>, root: Option<int>, rank: map<int, nat>) {
    forall n :: n in list && Some(n.pid) != root ==> n.id in rank && n.pid in rank && rank[n.pid] < rank[n.id]
  }

  ghost predicate Acyclic(list: seq<Node>, root: Option<int>) {
    exists rank :: Ranked(list, root, rank)
  }

  // Then every element is put out.
  lemma {:induction false} Reached(list: seq<Node>, root: Option<int>, r: seq<Node>, rank: map<int, nat>, n: Node)
    requires Flat(list, root, r, []) && Ranked(list, root, rank) && n in list
    requires forall el {:trigger HasPlace(list, root, el)} :: el in list ==> HasPlace(list, root, el)
    ensures n in r
    decreases if n.id in rank then rank[n.id] else 0
  {
    if Some(n.pid) != root {
      assert HasPlace(list, root, n);
      HasIff(list, n.pid, |list|);
      var i :| 0 <= i < |list| && list[i].id == n.pid;
      var parent := list[i];
      if Some(parent.pid) == root {
        assert parent in r;
      } else {
        Reached(list, root, r, rank, parent);
      }
      InOut(r, parent);
    }
  }

  lemma InOut(r: seq<Node>, p: Node)
    requires p in r
    ensures HasId(r, p.id)
  {
    HasIff(r, p.id, |r|);
  }

  // The place of the first element with this id.
  function Place(r: seq<Node>, id: int): (k: nat)
    ensures k <= |r| && (k < |r| ==> r[k].id == id) && forall j :: 0 <= j < k ==> r[j].id != id
  {
    if r == [] || r[0].id == id then 0 else 1 + Place(r[1..], id)
  }

  // An order with parents first ranks the elements.
  lemma PlacesRank(list: seq<Node>, root: Option<int>, r: seq<Node>)
    requires IdsUnique(list) && Flat(list, root, r, []) && forall n :: n in list ==> n in r
    ensures Acyclic(list, root)
  {
    assert r + [] == r;
    var ids := set n | n in r :: n.id;
    var rank: map<int, nat> := map id | id in ids :: Place(r, id);
    forall n | n in list && Some(n.pid) != root
      ensures n.id in rank && n.pid in rank && rank[n.pid] < rank[n.id]
    {
      var k :| 0 <= k < |r| && r[k] == n;
      assert Has(r, r[k].pid, k);
      HasIff(r, n.pid, k);
      var j :| 0 <= j < k && r[j].id == n.pid;
      assert Place(r, n.pid) <= j;
      assert r[j] in r;
      var p := Place(r, n.id);
      assert r[p] in list && r[p].id == n.id;
      SameId(list, r[p], n);
      assert p == k;
    }
    assert Ranked(list, root, rank);
  }

  lemma SameId(list: seq<Node>, a: Node, b: Node)
    requires IdsUnique(list) && a in list && b in list && a.id == b.id
    ensures a == b
  {
  }

  // What comes out is a rearrangement of the list exactly when the parent relation has no cycles.
  lemma PermutationIff(list: seq<Node>, root: Option<int>, r: seq<Node>)
    requires IdsUnique(list) && Flat(list, root, r, [])
    requires forall el {:trigger HasPlace(list, root, el)} :: el in list ==> HasPlace(list, root, el)
    ensures multiset(r) == multiset(list) <==> Acyclic(list, root)
  {
    UniqueNoDup(list);
    assert r + [] == r;
    if multiset(r) == multiset(list) {
      forall n | n in list
        ensures n in r
      {
        SameMember(r, list, n);
      }
      PlacesRank(list, root, r);
    }
    if Acyclic(list, root) {
      var rank :| Ranked(list, root, rank);
      forall n | n in list
        ensures n in r
      {
        Reached(list, root, r, rank, n);
      }
      SameElements(r, list);
    }
  }

  lemma Snapshot(cmp: Cmp<string>, list: seq<Node>, root: Option<int>) returns (was: map<Node, Option<seq<Node>>>)
    requires GoodCmp(cmp) && IdsUnique(list)
    requires forall el :: el in list ==> el.children == ChildrenOf(cmp, list, root, el.id)
    ensures Forest(list, root, was) && Left(list, was, [], |list|)
    ensures forall n :: n in list ==> n in was && was[n] == ChildrenOf(cmp, list, root, n.id)
  {
    hide Left, Grown, Kids, KidsOf, NoDup;
    was := map n | n in list :: n.children;
    UniqueNoDup(list);
    forall n | n in list
      ensures KidsOf(list, root, n.id, Value(was[n]))
    {
      ChildrenAre(cmp, list, root, n.id);
    }
    LeftIff(list, was, [], |list|);
  }

  // The children that listToTree makes, of the elements in r, one after the other.
  function Below(cmp: Cmp<string>, list: seq<Node>, root: Option<int>, r: seq<Node>): seq<Node> {
    if r == [] then [] else Below(cmp, list, root, r[..|r| - 1]) + Value(ChildrenOf(cmp, list, root, r[|r| - 1].id))
  }

  lemma {:induction false} OffspringIsBelow(cmp: Cmp<string>, list: seq<Node>, root: Option<int>,
                                            was: map<Node, Option<seq<Node>>>, r: seq<Node>)
    requires forall n :: n in r ==> n in was && was[n] == ChildrenOf(cmp, list, root, n.id)
    ensures Offspring(was, r) == Below(cmp, list, root, r)
  {
    if r != [] {
      OffspringIsBelow(cmp, list, root, was, r[..|r| - 1]);
    }
  }

  // From the list to the tree and back: a list whose parent ids lead to one missing parent comes back
  // rearranged, parents first, exactly when the parent relation has no cycles.
  method ThereAndBack(cmp: Cmp<string>, list: seq<Node>) returns (ok: bool, result: seq<Node>, ghost root: Option<int>)
    requires GoodCmp(cmp) && IdsUnique(list) && forall el :: el in list ==> el.children == None
    modifies Elements(list)`children
    ensures root.Some? ==> !HasId(list, root.value)
    ensures ok <==> forall el {:trigger HasPlace(list, root, el)} :: el in list ==> HasPlace(list, root, el)
    ensures ok ==> Flat(list, root, result, []) && (multiset(result) == multiset(list) <==> Acyclic(list, root))
    ensures ok ==> result == Roots(list, root, |list|) + Below(cmp, list, root, result)
  {
    var pid := FindPidOfRoot(list);
    root := pid;
    var tree;
    ok, tree := ListToTree(cmp, list, pid);
    if !ok { return false, [], root; }
    ghost var was := Snapshot(cmp, list, root);
    result := TreeToList(tree, list, root, was);
    assert result + [] == result;
    OffspringIsBelow(cmp, list, root, was, result);
    PermutationIff(list, root, result);
  }
}
