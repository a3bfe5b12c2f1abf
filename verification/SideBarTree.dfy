// The tree of the side bar (sideBarTree.js): built from a flat list by parent ids, with the children
// sorted by label, and flattened again breadth first.
module SideBarTree {
  import opened Compare
  import opened Options

  class Node {
    const id: int
    const pid: int
    const title: string
    var children: Option<seq<Node>>

    constructor (id: int, pid: int, title: string)
      ensures this.id == id && this.pid == pid && this.title == title && children == None
    {
      this.id, this.pid, this.title := id, pid, title;
      children := None;
    }
  }

  // ---------- sorting by label ----------

  // x after everything that is not greater, so equal labels keep their order.
  function Ins(cmp: Cmp<string>, s: seq<Node>, x: Node): (r: seq<Node>)
    ensures |r| == |s| + 1
  {
    if s == [] then [x]
    else if cmp(s[0].title, x.title) > 0 then [x] + s
    else [s[0]] + Ins(cmp, s[1..], x)
  }

  // Array.sort, which is stable.
  function Sort(cmp: Cmp<string>, s: seq<Node>): (r: seq<Node>)
    ensures |r| == |s|
  {
    if s == [] then [] else Ins(cmp, Sort(cmp, s[..|s| - 1]), s[|s| - 1])
  }

  ghost predicate Sorted(cmp: Cmp<string>, s: seq<Node>) {
    forall i, j :: 0 <= i < j < |s| ==> cmp(s[i].title, s[j].title) <= 0
  }

  lemma {:induction false} InsSame(cmp: Cmp<string>, s: seq<Node>, x: Node)
    ensures multiset(Ins(cmp, s, x)) == multiset(s) + multiset{x}
  {
    if s == [] {
    } else if cmp(s[0].title, x.title) > 0 {
    } else {
      InsSame(cmp, s[1..], x);
      assert s == [s[0]] + s[1..];
    }
  }

  // Something that is not after s or x is not after any element of Ins(s, x).
  lemma {:induction false} InsAfter(cmp: Cmp<string>, s: seq<Node>, x: Node, low: string, j: nat)
    requires j < |Ins(cmp, s, x)| && cmp(low, x.title) <= 0 && forall i :: 0 <= i < |s| ==> cmp(low, s[i].title) <= 0
    ensures cmp(low, Ins(cmp, s, x)[j].title) <= 0
  {
    if s == [] {
    } else if cmp(s[0].title, x.title) > 0 {
      assert j > 0 ==> Ins(cmp, s, x)[j] == s[j - 1];
    } else if j > 0 {
      InsAfter(cmp, s[1..], x, low, j - 1);
    }
  }

  lemma {:induction false} InsSorted(cmp: Cmp<string>, s: seq<Node>, x: Node)
    requires GoodCmp(cmp) && Sorted(cmp, s)
    ensures Sorted(cmp, Ins(cmp, s, x))
  {
    if s == [] {
    } else if cmp(s[0].title, x.title) > 0 {
      InsFirst(cmp, s, x);
    } else {
      var r := Ins(cmp, s[1..], x);
      InsSorted(cmp, s[1..], x);
      forall j | 0 <= j < |r|
        ensures cmp(s[0].title, r[j].title) <= 0
      {
        InsAfter(cmp, s[1..], x, s[0].title, j);
      }
    }
  }

  lemma InsFirst(cmp: Cmp<string>, s: seq<Node>, x: Node)
    requires GoodCmp(cmp) && Sorted(cmp, s) && s != [] && cmp(s[0].title, x.title) > 0
    ensures Sorted(cmp, [x] + s)
  {
    assert Triple(cmp, s[0].title, x.title, x.title) && Triple(cmp, x.title, s[0].title, s[0].title);
    forall j | 0 <= j < |s|
      ensures cmp(x.title, s[j].title) <= 0
    {
      assert Triple(cmp, x.title, s[0].title, s[j].title);
      assert Triple(cmp, s[0].title, s[0].title, s[0].title);
    }
  }

  lemma {:induction false} SortSorts(cmp: Cmp<string>, s: seq<Node>)
    requires GoodCmp(cmp)
    ensures Sorted(cmp, Sort(cmp, s)) && multiset(Sort(cmp, s)) == multiset(s)
  {
    if s == [] {
    } else {
      var n := |s| - 1;
      SortSorts(cmp, s[..n]);
      InsSorted(cmp, Sort(cmp, s[..n]), s[n]);
      InsSame(cmp, Sort(cmp, s[..n]), s[n]);
      assert s == s[..n] + [s[n]];
    }
  }

  // Sorting again after one more element is the same as sorting everything once.
  lemma {:induction false} SortOfSorted(cmp: Cmp<string>, s: seq<Node>)
    requires Sorted(cmp, s)
    ensures Sort(cmp, s) == s
  {
    if s == [] {
    } else {
      var n := |s| - 1;
      SortOfSorted(cmp, s[..n]);
      InsLast(cmp, s[..n], s[n]);
      assert s == s[..n] + [s[n]];
    }
  }

  lemma {:induction false} InsLast(cmp: Cmp<string>, s: seq<Node>, x: Node)
    requires forall i :: 0 <= i < |s| ==> cmp(s[i].title, x.title) <= 0
    ensures Ins(cmp, s, x) == s + [x]
  {
    if s == [] {
    } else {
      InsLast(cmp, s[1..], x);
      assert s + [x] == [s[0]] + (s[1..] + [x]);
    }
  }

  lemma SortAgain(cmp: Cmp<string>, s: seq<Node>, x: Node)
    requires GoodCmp(cmp)
    ensures Sort(cmp, Sort(cmp, s) + [x]) == Sort(cmp, s + [x])
  {
    SortSorts(cmp, s);
    SortOfSorted(cmp, Sort(cmp, s));
    assert (Sort(cmp, s) + [x])[..|s|] == Sort(cmp, s);
    assert (s + [x])[..|s|] == s;
  }

  // Elements whose label is no smaller and no greater than this one, in order.
  function Alike(cmp: Cmp<string>, s: seq<Node>, title: string): seq<Node> {
    if s == [] then []
    else Alike(cmp, s[..|s| - 1], title) + (if cmp(s[|s| - 1].title, title) == 0 then [s[|s| - 1]] else [])
  }

  lemma {:induction false} AlikeConcat(cmp: Cmp<string>, a: seq<Node>, b: seq<Node>, title: string)
    ensures Alike(cmp, a + b, title) == Alike(cmp, a, title) + Alike(cmp, b, title)
    decreases |b|
  {
    if b == [] {
      assert a + b == a;
    } else {
      var n := |b| - 1;
      assert (a + b)[..|a + b| - 1] == a + b[..n] && (a + b)[|a + b| - 1] == b[n];
      AlikeConcat(cmp, a, b[..n], title);
    }
  }

  // Nothing in s is like the label when all of it is greater.
  lemma {:induction false} NoneAlike(cmp: Cmp<string>, s: seq<Node>, title: string)
    requires forall i :: 0 <= i < |s| ==> cmp(s[i].title, title) > 0
    ensures Alike(cmp, s, title) == []
  {
    if s != [] {
      NoneAlike(cmp, s[..|s| - 1], title);
    }
  }

  lemma {:induction false} InsAlike(cmp: Cmp<string>, s: seq<Node>, x: Node, title: string)
    requires GoodCmp(cmp) && Sorted(cmp, s)
    ensures Alike(cmp, Ins(cmp, s, x), title) == Alike(cmp, s + [x], title)
  {
    if s == [] {
    } else if cmp(s[0].title, x.title) > 0 {
      AlikeConcat(cmp, [x], s, title);
      AlikeConcat(cmp, s, [x], title);
      if cmp(x.title, title) == 0 {
        AllGreater(cmp, s, x, title);
        NoneAlike(cmp, s, title);
      } else {
        assert Alike(cmp, [x], title) == [];
      }
    } else {
      InsAlike(cmp, s[1..], x, title);
      AlikeConcat(cmp, [s[0]], Ins(cmp, s[1..], x), title);
      AlikeConcat(cmp, [s[0]], s[1..] + [x], title);
      assert s + [x] == [s[0]] + (s[1..] + [x]);
    }
  }

  lemma AllGreater(cmp: Cmp<string>, s: seq<Node>, x: Node, title: string)
    requires GoodCmp(cmp) && Sorted(cmp, s) && s != [] && cmp(s[0].title, x.title) > 0 && cmp(x.title, title) == 0
    ensures forall i :: 0 <= i < |s| ==> cmp(s[i].title, title) > 0
  {
    forall i | 0 <= i < |s|
      ensures cmp(s[i].title, title) > 0
    {
      var a, b := s[0].title, s[i].title;
      assert Triple(cmp, a, a, a) && Triple(cmp, x.title, title, title) && Triple(cmp, title, x.title, x.title);
      assert cmp(a, b) <= 0;
      assert Triple(cmp, a, b, title) && Triple(cmp, a, title, x.title) && Triple(cmp, b, title, title);
    }
  }

  // Sorting is stable: among elements with the same label the order stays.
  lemma {:induction false} SortStable(cmp: Cmp<string>, s: seq<Node>, title: string)
    requires GoodCmp(cmp)
    ensures Alike(cmp, Sort(cmp, s), title) == Alike(cmp, s, title)
  {
    if s != [] {
      var n := |s| - 1;
      SortStable(cmp, s[..n], title);
      SortSorts(cmp, s[..n]);
      InsAlike(cmp, Sort(cmp, s[..n]), s[n], title);
      AlikeConcat(cmp, Sort(cmp, s[..n]), [s[n]], title);
      AlikeConcat(cmp, s[..n], [s[n]], title);
      assert s == s[..n] + [s[n]];
    }
  }

  // ---------- the tree of a list ----------

  // The elements among the first n whose parent has this id, in list order; roots have no parent.
  function Kids(list: seq<Node>, root: Option<int>, id: int, n: nat): seq<Node>
    requires n <= |list|
  {
    if n == 0 then []
    else Kids(list, root, id, n - 1) + (if list[n - 1].pid == id && root != Some(id) then [list[n - 1]] else [])
  }

  function Roots(list: seq<Node>, root: Option<int>, n: nat): seq<Node>
    requires n <= |list|
  {
    if n == 0 then []
    else Roots(list, root, n - 1) + (if Some(list[n - 1].pid) == root then [list[n - 1]] else [])
  }

  // The children of an element that had some before, when kids have been added and sorted in.
  function Grown(cmp: Cmp<string>, before: Option<seq<Node>>, kids: seq<Node>): Option<seq<Node>> {
    if kids == [] then before else Some(Sort(cmp, (if before.Some? then before.value else []) + kids))
  }

  lemma GrownNext(cmp: Cmp<string>, before: Option<seq<Node>>, kids: seq<Node>, x: Node)
    requires GoodCmp(cmp)
    ensures var now := Grown(cmp, before, kids);
      Grown(cmp, before, kids + [x]) == Some(Sort(cmp, (if now.Some? then now.value else []) + [x]))
  {
    var v := if before.Some? then before.value else [];
    assert v + (kids + [x]) == (v + kids) + [x];
    if kids == [] {
      assert v + kids == v;
    } else {
      SortAgain(cmp, v + kids, x);
    }
  }

  ghost predicate IdsUnique(list: seq<Node>) {
    forall i, j :: 0 <= i < j < |list| ==> list[i].id != list[j].id
  }

  // One of the first n elements has this id.
  predicate Has(list: seq<Node>, id: int, n: nat)
    requires n <= |list|
  {
    n > 0 && (list[n - 1].id == id || Has(list, id, n - 1))
  }

  predicate HasId(list: seq<Node>, id: int) {
    Has(list, id, |list|)
  }

  lemma {:induction false} HasIff(list: seq<Node>, id: int, n: nat)
    requires n <= |list|
    ensures Has(list, id, n) <==> exists i :: 0 <= i < n && list[i].id == id
  {
    if n > 0 {
      HasIff(list, id, n - 1);
    }
  }

  ghost function Elements(list: seq<Node>): set<Node> {
    set n | n in list
  }

  // obj: the last element with each id
  method Index(list: seq<Node>) returns (obj: map<int, Node>)
    ensures forall id :: id in obj <==> HasId(list, id)
    ensures forall id :: id in obj ==> obj[id] in list && obj[id].id == id
  {
    obj := map[];
    var i := 0;
    while i < |list|
      invariant 0 <= i <= |list|
      invariant forall id :: id in obj <==> Has(list, id, i)
      invariant forall id :: id in obj ==> obj[id] in list && obj[id].id == id
    {
      obj := obj[list[i].id := list[i]];
      i := i + 1;
    }
  }

  // The children an element has after n elements of the list.
  ghost predicate ChildrenOk(cmp: Cmp<string>, list: seq<Node>, root: Option<int>, obj: map<int, Node>, n: nat,
                             el: Node, before: Option<seq<Node>>)
    requires n <= |list|
    reads el
  {
    el.children == if el.id in obj && obj[el.id] == el then Grown(cmp, before, Kids(list, root, el.id, n)) else before
  }

  // The first m elements of the list have them.
  ghost predicate AllOk(cmp: Cmp<string>, list: seq<Node>, root: Option<int>, obj: map<int, Node>, m: nat, n: nat,
                        before: map<Node, Option<seq<Node>>>)
    requires n <= |list| && m <= |list|
    reads Elements(list)
  {
    m == 0 || (
      && list[m - 1] in before && ChildrenOk(cmp, list, root, obj, n, list[m - 1], before[list[m - 1]])
      && AllOk(cmp, list, root, obj, m - 1, n, before))
  }

  lemma {:induction false} AllOkIff(cmp: Cmp<string>, list: seq<Node>, root: Option<int>, obj: map<int, Node>, m: nat, n: nat,
                                    before: map<Node, Option<seq<Node>>>)
    requires n <= |list| && m <= |list|
    ensures AllOk(cmp, list, root, obj, m, n, before)
      <==> forall i :: 0 <= i < m ==> list[i] in before && ChildrenOk(cmp, list, root, obj, n, list[i], before[list[i]])
  {
    if m > 0 {
      AllOkIff(cmp, list, root, obj, m - 1, n, before);
    }
  }

  ghost predicate IsIndex(list: seq<Node>, obj: map<int, Node>) {
    && (forall id :: id in obj <==> HasId(list, id))
    && (forall id :: id in obj ==> obj[id] in list && obj[id].id == id)
  }

  // listToTree; a parent id that no element has makes it throw.
  method ListToTree(cmp: Cmp<string>, list: seq<Node>, root: Option<int>) returns (ok: bool, result: seq<Node>)
    requires GoodCmp(cmp)
    modifies Elements(list)`children
    ensures ok <==> forall el {:trigger HasPlace(list, root, el)} :: el in list ==> HasPlace(list, root, el)
    ensures ok ==> result == Roots(list, root, |list|)
    ensures ok && IdsUnique(list) ==> forall el :: el in list ==>
      el.children == Grown(cmp, old(el.children), Kids(list, root, el.id, |list|))
  {
    ghost var before := map el | el in list :: el.children;
    var obj := Index(list);
    NoneYet(cmp, list, root, obj, before);
    PlacesIff(list, root, |list|);
    ok, result := Build(cmp, list, root, obj, before);
    if ok && IdsUnique(list) {
      Built(cmp, list, root, obj, before);
    }
  }

  lemma NoneYet(cmp: Cmp<string>, list: seq<Node>, root: Option<int>, obj: map<int, Node>, before: map<Node, Option<seq<Node>>>)
    requires forall el :: el in list ==> el in before && el.children == before[el]
    ensures AllOk(cmp, list, root, obj, |list|, 0, before)
  {
    AllOkIff(cmp, list, root, obj, |list|, 0, before);
  }

  // The loop of listToTree
  method Build(cmp: Cmp<string>, list: seq<Node>, root: Option<int>, obj: map<int, Node>,
               ghost before: map<Node, Option<seq<Node>>>) returns (ok: bool, result: seq<Node>)
    requires GoodCmp(cmp) && IsIndex(list, obj) && AllOk(cmp, list, root, obj, |list|, 0, before)
    modifies Elements(list)`children
    ensures ok <==> PlacesUpTo(list, root, |list|)
    ensures ok ==> result == Roots(list, root, |list|) && AllOk(cmp, list, root, obj, |list|, |list|, before)
  {
    result := [];
    var i := 0;
    while i < |list|
      invariant 0 <= i <= |list| && result == Roots(list, root, i)
      invariant PlacesUpTo(list, root, i)
      invariant AllOk(cmp, list, root, obj, |list|, i, before)
    {
      ok, result := PlaceOne(cmp, list, root, obj, i, before, result);
      if !ok {
        NoPlace(list, root, i, |list|);
        return false, [];
      }
      i := i + 1;
    }
    ok := true;
  }

  predicate PlacesUpTo(list: seq<Node>, root: Option<int>, n: nat)
    requires n <= |list|
  {
    n == 0 || (HasPlace(list, root, list[n - 1]) && PlacesUpTo(list, root, n - 1))
  }

  lemma {:induction false} NoPlace(list: seq<Node>, root: Option<int>, i: nat, n: nat)
    requires i < n <= |list| && !HasPlace(list, root, list[i])
    ensures !PlacesUpTo(list, root, n)
    decreases n
  {
    if i < n - 1 {
      NoPlace(list, root, i, n - 1);
    }
  }

  lemma {:induction false} PlacesIff(list: seq<Node>, root: Option<int>, n: nat)
    requires n <= |list|
    ensures PlacesUpTo(list, root, n)
      <==> forall i {:trigger HasPlace(list, root, list[i])} :: 0 <= i < n ==> HasPlace(list, root, list[i])
  {
    if n > 0 {
      PlacesIff(list, root, n - 1);
    }
  }

  predicate HasPlace(list: seq<Node>, root: Option<int>, el: Node) {
    Some(el.pid) == root || HasId(list, el.pid)
  }

  // One element: among the roots, or among the children of its parent.
  method PlaceOne(cmp: Cmp<string>, list: seq<Node>, root: Option<int>, obj: map<int, Node>, i: nat,
                  ghost before: map<Node, Option<seq<Node>>>, roots: seq<Node>) returns (ok: bool, result: seq<Node>)
    requires GoodCmp(cmp) && IsIndex(list, obj) && i < |list| && AllOk(cmp, list, root, obj, |list|, i, before)
    requires roots == Roots(list, root, i)
    modifies Elements(list)`children
    ensures ok <==> HasPlace(list, root, list[i])
    ensures ok ==> result == Roots(list, root, i + 1) && AllOk(cmp, list, root, obj, |list|, i + 1, before)
  {
    result := roots;
    if Some(list[i].pid) == root {
      RootStep(cmp, list, root, obj, i, before);
      result := result + [list[i]];
    } else {
      if list[i].pid !in obj { return false, []; }
      ChildStep(cmp, list, root, obj, i, before);
    }
    ok := true;
  }

  lemma RootStep(cmp: Cmp<string>, list: seq<Node>, root: Option<int>, obj: map<int, Node>, i: nat,
                 before: map<Node, Option<seq<Node>>>)
    requires i < |list| && AllOk(cmp, list, root, obj, |list|, i, before) && Some(list[i].pid) == root
    ensures AllOk(cmp, list, root, obj, |list|, i + 1, before)
  {
    AllOkIff(cmp, list, root, obj, |list|, i, before);
    forall k | 0 <= k < |list|
      ensures ChildrenOk(cmp, list, root, obj, i + 1, list[k], before[list[k]])
    {
      assert Kids(list, root, list[k].id, i + 1) == Kids(list, root, list[k].id, i);
    }
    AllOkIff(cmp, list, root, obj, |list|, i + 1, before);
  }

  method ChildStep(cmp: Cmp<string>, list: seq<Node>, root: Option<int>, obj: map<int, Node>, i: nat,
                   ghost before: map<Node, Option<seq<Node>>>)
    requires GoodCmp(cmp) && IsIndex(list, obj) && i < |list| && AllOk(cmp, list, root, obj, |list|, i, before)
    requires Some(list[i].pid) != root && list[i].pid in obj
    modifies Elements(list)`children
    ensures AllOk(cmp, list, root, obj, |list|, i + 1, before)
  {
    AllOkIff(cmp, list, root, obj, |list|, i, before);
    var parent := obj[list[i].pid];
    GrownNext(cmp, before[parent], Kids(list, root, parent.id, i), list[i]);
    AddChild(cmp, parent, list[i]);
    forall k | 0 <= k < |list|
      ensures ChildrenOk(cmp, list, root, obj, i + 1, list[k], before[list[k]])
    {
      assert old(ChildrenOk(cmp, list, root, obj, i, list[k], before[list[k]]));
      if list[k] != parent && list[k].id in obj && obj[list[k].id] == list[k] {
        assert Kids(list, root, list[k].id, i + 1) == Kids(list, root, list[k].id, i);
      }
    }
    AllOkIff(cmp, list, root, obj, |list|, i + 1, before);
  }

  lemma Built(cmp: Cmp<string>, list: seq<Node>, root: Option<int>, obj: map<int, Node>, before: map<Node, Option<seq<Node>>>)
    requires IsIndex(list, obj) && IdsUnique(list) && AllOk(cmp, list, root, obj, |list|, |list|, before)
    ensures forall el :: el in list ==>
      el in before && el.children == Grown(cmp, before[el], Kids(list, root, el.id, |list|))
  {
    AllOkIff(cmp, list, root, obj, |list|, |list|, before);
    forall el | el in list
      ensures el in before && el.children == Grown(cmp, before[el], Kids(list, root, el.id, |list|))
    {
      var i :| 0 <= i < |list| && list[i] == el;
      HasIff(list, el.id, |list|);
      var k :| 0 <= k < |list| && list[k] == obj[el.id];
      assert list[i].id == list[k].id;
      assert ChildrenOk(cmp, list, root, obj, |list|, list[i], before[list[i]]);
    }
  }

  // obj[id].children.push(x), and sort
  method AddChild(cmp: Cmp<string>, parent: Node, x: Node)
    modifies parent`children
    ensures parent.children
         == Some(Sort(cmp, (if old(parent.children).Some? then old(parent.children).value else []) + [x]))
  {
    if parent.children.Some? {
      parent.children := Some(parent.children.value + [x]);
    } else {
      parent.children := Some([x]);
      assert [] + [x] == [x];
    }
    parent.children := Some(Sort(cmp, parent.children.value));
  }

  // findPidOfRoot: the parent id of the first element whose parent is not in the list.
  method FindPidOfRoot(list: seq<Node>) returns (pid: Option<int>)
    ensures pid.None? ==> forall el :: el in list ==> HasId(list, el.pid)
    ensures pid.Some? ==> exists i :: 0 <= i < |list| && list[i].pid == pid.value && !HasId(list, list[i].pid)
                                      && forall k :: 0 <= k < i ==> HasId(list, list[k].pid)
  {
    var i := 0;
    while i < |list|
      invariant 0 <= i <= |list| && forall k :: 0 <= k < i ==> HasId(list, list[k].pid)
    {
      var found := Find(list, list[i].pid);
      if !found { return Some(list[i].pid); }
      i := i + 1;
    }
    pid := None;
  }

  method Find(list: seq<Node>, id: int) returns (found: bool)
    ensures found <==> HasId(list, id)
  {
    var k := 0;
    while k < |list|
      invariant 0 <= k <= |list| && !Has(list, id, k)
    {
      if list[k].id == id {
        HasIff(list, id, |list|);
        return true;
      }
      k := k + 1;
    }
    found := false;
  }
}
