/** A ghost view of the pairing heap's node arena (PairingPQ.hpp). Nodes
    are numbered; `child`, `sibling` and `elt` are sequences indexed by node
    number, and -1 stands for nullptr. What a node reaches through its
    `child` and `sibling` links is read as a binary tree: the left branch is
    the node's child list, the right branch the rest of the list the node is
    on. */
module PairingTrees {

  const Null := -1

  datatype Tree = Nil | Node(id: int, child: Tree, sibling: Tree)

  function Ids(t: Tree): set<int> {
    match t
    case Nil => {}
    case Node(i, c, s) => {i} + Ids(c) + Ids(s)
  }

  /** The number of nodes `t` reaches. */
  function Count(t: Tree): nat {
    match t
    case Nil => 0
    case Node(_, c, s) => 1 + Count(c) + Count(s)
  }

  /** No node is reached twice: the links form a tree, not a graph. */
  ghost predicate Distinct(t: Tree) {
    match t
    case Nil => true
    case Node(i, c, s) =>
      i !in Ids(c) && i !in Ids(s) && Ids(c) !! Ids(s) && Distinct(c) && Distinct(s)
  }

  /** The element of node `i`, or 0 for a number outside the arena. */
  function Val(elt: seq<int>, i: int): int {
    if 0 <= i < |elt| then elt[i] else 0
  }

  /** The elements of the nodes `t` reaches. */
  function Elems(t: Tree, elt: seq<int>): multiset<int> {
    match t
    case Nil => multiset{}
    case Node(i, c, s) => multiset{Val(elt, i)} + Elems(c, elt) + Elems(s, elt)
  }

  /** No element of `t` is greater than `b`. */
  ghost predicate Bounded(t: Tree, b: int, elt: seq<int>) {
    match t
    case Nil => true
    case Node(i, c, s) => Val(elt, i) <= b && Bounded(c, b, elt) && Bounded(s, b, elt)
  }

  /** Heap order along every parent-child edge: no node of a child list,
      nor anything below it, is greater than the node owning the list. */
  ghost predicate HeapOrdered(t: Tree, elt: seq<int>) {
    match t
    case Nil => true
    case Node(i, c, s) => Bounded(c, Val(elt, i), elt) && HeapOrdered(c, elt) && HeapOrdered(s, elt)
  }

  /** Node `x` of the arena reaches exactly `t` through `child`/`sibling`. */
  ghost predicate Rep(t: Tree, x: int, child: seq<int>, sibling: seq<int>) {
    match t
    case Nil => x == Null
    case Node(i, c, s) =>
      x == i && 0 <= i < |child| && i < |sibling| &&
      Rep(c, child[i], child, sibling) && Rep(s, sibling[i], child, sibling)
  }

  /** `x` heads a single tree: a node with no sibling. */
  ghost predicate IsRoot(t: Tree, x: int, child: seq<int>, sibling: seq<int>) {
    t.Node? && t.sibling == Nil && Rep(t, x, child, sibling)
  }

  /** The links of the nodes in `ids` are the same in both arenas. */
  ghost predicate Agree(ids: set<int>, c: seq<int>, s: seq<int>, c': seq<int>, s': seq<int>) {
    forall i :: i in ids && 0 <= i < |c| && i < |s| ==>
      i < |c'| && i < |s'| && c'[i] == c[i] && s'[i] == s[i]
  }

  /** The elements of the nodes in `ids` are the same in both arenas. */
  ghost predicate SameVals(ids: set<int>, e: seq<int>, e': seq<int>) {
    forall i :: i in ids ==> Val(e, i) == Val(e', i)
  }

  // ---------------------------------------------------------------------
  // Basic facts about the view

  /** Every node reached is in the arena, and every link of a reached node
      is null or leads to a reached node. */
  lemma {:induction false} PointsInside(t: Tree, x: int, c: seq<int>, s: seq<int>)
    requires Rep(t, x, c, s)
    ensures x == Null || x in Ids(t)
    ensures forall j :: j in Ids(t) ==>
      0 <= j < |c| && j < |s| && (c[j] == Null || c[j] in Ids(t)) && (s[j] == Null || s[j] in Ids(t))
  {
    if t.Node? {
      PointsInside(t.child, c[t.id], c, s);
      PointsInside(t.sibling, s[t.id], c, s);
    }
  }

  /** No link of a reached node leads back to the node the tree starts at. */
  lemma {:induction false} RootUnpointed(t: Tree, x: int, c: seq<int>, s: seq<int>)
    requires Rep(t, x, c, s) && Distinct(t)
    ensures forall j :: j in Ids(t) ==> 0 <= j < |c| && j < |s| && c[j] != x && s[j] != x
  {
    if t.Node? {
      PointsInside(t, x, c, s);
      PointsInside(t.child, c[x], c, s);
      PointsInside(t.sibling, s[x], c, s);
    }
  }

  /** The view only depends on the links of the nodes it reaches. */
  lemma {:induction false} RepFrame(t: Tree, x: int, c: seq<int>, s: seq<int>, c': seq<int>, s': seq<int>)
    requires Rep(t, x, c, s) && Agree(Ids(t), c, s, c', s')
    ensures Rep(t, x, c', s')
  {
    if t.Node? {
      RepFrame(t.child, c[t.id], c, s, c', s');
      RepFrame(t.sibling, s[t.id], c, s, c', s');
    }
  }

  /** The elements, bounds and heap order of a tree only depend on the
      elements of the nodes it reaches. */
  lemma {:induction false} ValsFrame(t: Tree, e: seq<int>, e': seq<int>)
    requires SameVals(Ids(t), e, e')
    ensures Elems(t, e') == Elems(t, e)
    ensures forall b :: Bounded(t, b, e') == Bounded(t, b, e)
    ensures HeapOrdered(t, e') == HeapOrdered(t, e)
  {
    if t.Node? {
      ValsFrame(t.child, e, e');
      ValsFrame(t.sibling, e, e');
    }
  }

  /** A distinct tree reaches as many nodes as it has ids. */
  lemma {:induction false} CountIsIds(t: Tree)
    requires Distinct(t)
    ensures Count(t) == |Ids(t)|
  {
    if t.Node? {
      CountIsIds(t.child);
      CountIsIds(t.sibling);
      var below := Ids(t.child) + Ids(t.sibling);
      assert |below| == |Ids(t.child)| + |Ids(t.sibling)|;
      assert Ids(t) == {t.id} + below;
    }
  }

  // ---------------------------------------------------------------------
  // Bounds and heap order

  lemma {:induction false} BoundedWeaken(t: Tree, b: int, b': int, elt: seq<int>)
    requires Bounded(t, b, elt) && b <= b'
    ensures Bounded(t, b', elt)
  {
    if t.Node? {
      BoundedWeaken(t.child, b, b', elt);
      BoundedWeaken(t.sibling, b, b', elt);
    }
  }

  /** A bound of `t` bounds each of its elements. */
  lemma {:induction false} BoundedElems(t: Tree, b: int, elt: seq<int>)
    requires Bounded(t, b, elt)
    ensures forall v :: v in Elems(t, elt) ==> v <= b
  {
    if t.Node? {
      BoundedElems(t.child, b, elt);
      BoundedElems(t.sibling, b, elt);
      var v0, ec, es := Val(elt, t.id), Elems(t.child, elt), Elems(t.sibling, elt);
      assert Elems(t, elt) == multiset{v0} + ec + es;
      forall v | v in Elems(t, elt) ensures v <= b {
        if v != v0 && v !in ec {
          assert v in es;
        }
      }
    }
  }

  /** In a heap-ordered single tree no element exceeds the root's. */
  lemma {:induction false} TopIsMax(t: Tree, elt: seq<int>)
    requires t.Node?
    ensures t.sibling == Nil && HeapOrdered(t, elt) ==> forall v :: v in Elems(t, elt) ==> v <= Val(elt, t.id)
  {
    if t.sibling == Nil && HeapOrdered(t, elt) {
      BoundedElems(t.child, Val(elt, t.id), elt);
      var v0, ec := Val(elt, t.id), Elems(t.child, elt);
      assert Elems(t, elt) == multiset{v0} + ec;
      assert forall v :: v in ec ==> v <= v0;
      forall v | v in Elems(t, elt) ensures v <= v0 {
        if v != v0 {
          assert v in ec;
        }
      }
    }
  }

  // ---------------------------------------------------------------------
  // meld

  /** What meld(a, b) leaves reachable from the node it returns. When
      compare(a.elt, b.elt), b wins; otherwise a wins. The loser becomes the
      winner's first child, the loser's sibling becomes the winner's old first
      child, and the winner keeps its own sibling. */
  function Melded(a: Tree, b: Tree, elt: seq<int>): (m: Tree)
    requires a.Node? && b.Node?
    ensures m.Node? && m.id == (if Val(elt, a.id) < Val(elt, b.id) then b.id else a.id)
    ensures Val(elt, a.id) <= Val(elt, m.id) && Val(elt, b.id) <= Val(elt, m.id)
    ensures m.sibling == (if Val(elt, a.id) < Val(elt, b.id) then b.sibling else a.sibling)
  {
    if Val(elt, a.id) < Val(elt, b.id) then
      Node(b.id, Node(a.id, a.child, b.child), b.sibling)
    else
      Node(a.id, Node(b.id, b.child, a.child), a.sibling)
  }

  /** meld of two single trees is a single tree holding the nodes and the
      elements of both. */
  lemma {:induction false} MeldContents(a: Tree, b: Tree, elt: seq<int>)
    requires a.Node? && b.Node? && a.sibling == Nil && b.sibling == Nil
    ensures Melded(a, b, elt).sibling == Nil
    ensures Ids(Melded(a, b, elt)) == Ids(a) + Ids(b)
    ensures Elems(Melded(a, b, elt), elt) == Elems(a, elt) + Elems(b, elt)
    ensures Count(Melded(a, b, elt)) == Count(a) + Count(b)
  {
    MeldIds(a, b, elt);
    MeldElems(a, b, elt);
  }

  lemma {:induction false} MeldIds(a: Tree, b: Tree, elt: seq<int>)
    requires a.Node? && b.Node? && a.sibling == Nil && b.sibling == Nil
    ensures Ids(Melded(a, b, elt)) == Ids(a) + Ids(b)
    ensures Count(Melded(a, b, elt)) == Count(a) + Count(b)
  {
  }

  lemma {:induction false} MeldElems(a: Tree, b: Tree, elt: seq<int>)
    requires a.Node? && b.Node? && a.sibling == Nil && b.sibling == Nil
    ensures Elems(Melded(a, b, elt), elt) == Elems(a, elt) + Elems(b, elt)
  {
    var va, vb := Val(elt, a.id), Val(elt, b.id);
    var ea, eb := Elems(a.child, elt), Elems(b.child, elt);
    assert Elems(a, elt) == multiset{va} + ea;
    assert Elems(b, elt) == multiset{vb} + eb;
    if va < vb {
      var inner := Node(a.id, a.child, b.child);
      assert Melded(a, b, elt) == Node(b.id, inner, Nil);
      assert Elems(inner, elt) == multiset{va} + ea + eb;
    } else {
      var inner := Node(b.id, b.child, a.child);
      assert Melded(a, b, elt) == Node(a.id, inner, Nil);
      assert Elems(inner, elt) == multiset{vb} + eb + ea;
    }
  }

  /** meld of two disjoint trees is a tree, and of two heap-ordered single
      trees a heap-ordered single tree. */
  lemma {:induction false} MeldKeepsOrder(a: Tree, b: Tree, elt: seq<int>)
    requires a.Node? && b.Node?
    ensures Distinct(a) && Distinct(b) && Ids(a) !! Ids(b) ==> Distinct(Melded(a, b, elt))
    ensures a.sibling == Nil && b.sibling == Nil && HeapOrdered(a, elt) && HeapOrdered(b, elt) ==>
      HeapOrdered(Melded(a, b, elt), elt)
  {
    if a.sibling == Nil && b.sibling == Nil && HeapOrdered(a, elt) && HeapOrdered(b, elt) {
      if Val(elt, a.id) < Val(elt, b.id) {
        BoundedWeaken(a.child, Val(elt, a.id), Val(elt, b.id), elt);
      } else {
        BoundedWeaken(b.child, Val(elt, b.id), Val(elt, a.id), elt);
      }
    }
  }

  /** The links meld(a, b) writes: the loser's sibling link takes the
      winner's first child, and the winner's child link the loser. */
  lemma {:induction false} MeldRep(ta: Tree, tb: Tree, elt: seq<int>, c: seq<int>, s: seq<int>, c': seq<int>, s': seq<int>)
    requires ta.Node? && tb.Node? && Rep(ta, ta.id, c, s) && Rep(tb, tb.id, c, s)
    requires Distinct(ta) && Distinct(tb) && Ids(ta) !! Ids(tb)
    requires Val(elt, ta.id) < Val(elt, tb.id) ==> c' == c[tb.id := ta.id] && s' == s[ta.id := c[tb.id]]
    requires !(Val(elt, ta.id) < Val(elt, tb.id)) ==> c' == c[ta.id := tb.id] && s' == s[tb.id := c[ta.id]]
    ensures Rep(Melded(ta, tb, elt), Melded(ta, tb, elt).id, c', s')
  {
    if Val(elt, ta.id) < Val(elt, tb.id) {
      LinkUnder(tb, ta, c, s, c', s');
    } else {
      LinkUnder(ta, tb, c, s, c', s');
    }
  }

  /** The links that put `l` on the front of `w`'s child list. */
  lemma {:induction false} LinkUnder(w: Tree, l: Tree, c: seq<int>, s: seq<int>, c': seq<int>, s': seq<int>)
    requires w.Node? && l.Node? && Rep(w, w.id, c, s) && Rep(l, l.id, c, s)
    requires Distinct(w) && Distinct(l) && Ids(w) !! Ids(l)
    requires c' == c[w.id := l.id] && s' == s[l.id := c[w.id]]
    ensures Rep(Node(w.id, Node(l.id, l.child, w.child), w.sibling), w.id, c', s')
  {
    RepFrame(l.child, c[l.id], c, s, c', s');
    RepFrame(w.child, c[w.id], c, s, c', s');
    RepFrame(w.sibling, s[w.id], c, s, c', s');
  }

  /** What addNode leaves: a new node `n`, melded with the tree `t` unless
      that is empty. The new root is the new node or the old root, and the
      top list keeps the old root's siblings. */
  function Pushed(t: Tree, n: int, elt: seq<int>): (r: Tree)
    ensures r.Node? && (r.id == n || (t.Node? && r.id == t.id))
    ensures t.Nil? || t.sibling == Nil ==> r.sibling == Nil
  {
    if t.Nil? then Node(n, Nil, Nil) else Melded(Node(n, Nil, Nil), t, elt)
  }

  /** addNode on a single tree (or none) adds exactly the new node and its
      element, and keeps heap order. */
  lemma {:induction false} PushedProps(t: Tree, n: int, elt: seq<int>)
    requires t.Nil? || t.sibling == Nil
    ensures Ids(Pushed(t, n, elt)) == Ids(t) + {n}
    ensures Elems(Pushed(t, n, elt), elt) == Elems(t, elt) + multiset{Val(elt, n)}
    ensures HeapOrdered(t, elt) ==> HeapOrdered(Pushed(t, n, elt), elt)
  {
    var single := Node(n, Nil, Nil);
    assert Elems(single, elt) == multiset{Val(elt, n)};
    if t.Node? {
      MeldContents(single, t, elt);
      MeldKeepsOrder(single, t, elt);
    }
  }

  /** addNode on a single tree (or none) counts one node more. */
  lemma {:induction false} PushedCount(t: Tree, n: int, elt: seq<int>)
    requires t.Nil? || t.sibling == Nil
    ensures Count(Pushed(t, n, elt)) == Count(t) + 1
  {
    if t.Node? {
      MeldContents(Node(n, Nil, Nil), t, elt);
    }
  }

  /** The owners addNode leaves: the new node hangs under the old root
      unless it wins, the old root then hangs under the new node, and every
      other node keeps its owner. */
  lemma PushedOwner(t: Tree, n: int, elt: seq<int>, h: int)
    requires (t.Nil? || t.sibling == Nil) && Distinct(t) && n !in Ids(t) && (h == n || h in Ids(t))
    ensures OwnerIn(Pushed(t, n, elt), Null, h) ==
      if h == n then (if t.Node? && Val(elt, n) < Val(elt, t.id) then t.id else Null)
      else if h == t.id then (if Val(elt, n) < Val(elt, t.id) then Null else n)
      else OwnerIn(t, Null, h)
  {
  }

  /** Every node of both `t` and `t'` with a correct parent link in `p`
      has a correct parent link in `p'`. */
  ghost predicate KeepsKnown(t: Tree, p: seq<int>, t': Tree, p': seq<int>) {
    forall h :: h in Ids(t) && h in Ids(t') && 0 <= h < |p| && p[h] == OwnerIn(t, Null, h) ==>
      0 <= h < |p'| && p'[h] == OwnerIn(t', Null, h)
  }

  /** Dropping cells past the end keeps the correct links correct. */
  lemma KeepsKnownPrefix(t: Tree, p: seq<int>, q: seq<int>, t': Tree, p': seq<int>)
    requires KeepsKnown(t, p + q, t', p')
    ensures KeepsKnown(t, p, t', p')
  {
    forall h | h in Ids(t) && h in Ids(t') && 0 <= h < |p| && p[h] == OwnerIn(t, Null, h)
      ensures 0 <= h < |p'| && p'[h] == OwnerIn(t', Null, h)
    {
      assert (p + q)[h] == p[h];
    }
  }

  /** addNode's parent writes (the new node's null link, then the loser of
      meld recording the winner) keep every correct parent link correct and
      give the new node a correct one. */
  lemma PushedKnown(t: Tree, n: int, elt: seq<int>, p: seq<int>, p': seq<int>)
    requires (t.Nil? || t.sibling == Nil) && Distinct(t) && n !in Ids(t) && 0 <= n < |p'|
    requires forall i :: i in Ids(t) ==> 0 <= i < |p| && i < |p'|
    requires forall i :: i in Ids(t) && i != t.id ==> p'[i] == p[i]
    requires p'[n] == (if t.Node? && Val(elt, n) < Val(elt, t.id) then t.id else Null)
    requires t.Node? ==> p'[t.id] == (if Val(elt, n) < Val(elt, t.id) then p[t.id] else n)
    ensures n in Ids(Pushed(t, n, elt)) && p'[n] == OwnerIn(Pushed(t, n, elt), Null, n)
    ensures KeepsKnown(t, p, Pushed(t, n, elt), p')
  {
    PushedProps(t, n, elt);
    PushedOwner(t, n, elt, n);
    forall h | h in Ids(t) && h in Ids(Pushed(t, n, elt)) && 0 <= h < |p| && p[h] == OwnerIn(t, Null, h)
      ensures 0 <= h < |p'| && p'[h] == OwnerIn(Pushed(t, n, elt), Null, h)
    {
      PushedOwner(t, n, elt, h);
    }
  }

  // ---------------------------------------------------------------------
  // Forests: the worklist of pop

  function IdsOf(ts: seq<Tree>): set<int> {
    if ts == [] then {} else Ids(ts[0]) + IdsOf(ts[1..])
  }

  function ElemsOf(ts: seq<Tree>, elt: seq<int>): multiset<int> {
    if ts == [] then multiset{} else Elems(ts[0], elt) + ElemsOf(ts[1..], elt)
  }

  /** Each tree of the forest is a node without siblings. */
  ghost predicate Roots(ts: seq<Tree>) {
    forall k :: 0 <= k < |ts| ==> ts[k].Node? && ts[k].sibling == Nil
  }

  /** The trees of the forest are trees and share no node. */
  ghost predicate Disjoint(ts: seq<Tree>) {
    (forall k :: 0 <= k < |ts| ==> Distinct(ts[k])) &&
    (forall k, l :: 0 <= k < l < |ts| ==> Ids(ts[k]) !! Ids(ts[l]))
  }

  ghost predicate AllOrdered(ts: seq<Tree>, elt: seq<int>) {
    forall k :: 0 <= k < |ts| ==> HeapOrdered(ts[k], elt)
  }

  lemma {:induction false} IdsOfAppend(a: seq<Tree>, b: seq<Tree>)
    ensures IdsOf(a + b) == IdsOf(a) + IdsOf(b)
  {
    if a != [] {
      assert (a + b)[0] == a[0];
      assert (a + b)[1..] == a[1..] + b;
      IdsOfAppend(a[1..], b);
    } else {
      assert a + b == b;
    }
  }

  lemma {:induction false} ElemsOfAppend(a: seq<Tree>, b: seq<Tree>, elt: seq<int>)
    ensures ElemsOf(a + b, elt) == ElemsOf(a, elt) + ElemsOf(b, elt)
  {
    if a != [] {
      assert (a + b)[0] == a[0];
      assert (a + b)[1..] == a[1..] + b;
      ElemsOfAppend(a[1..], b, elt);
    } else {
      assert a + b == b;
    }
  }

  /** Each tree's nodes are among the forest's. */
  lemma {:induction false} IdsOfMember(ts: seq<Tree>, k: nat)
    requires k < |ts|
    ensures Ids(ts[k]) <= IdsOf(ts)
  {
    if k > 0 {
      IdsOfMember(ts[1..], k - 1);
    }
  }

  /** A node of the forest belongs to one of its trees. */
  lemma {:induction false} IdsOfWitness(ts: seq<Tree>, n: int) returns (k: nat)
    requires n in IdsOf(ts)
    ensures k < |ts| && n in Ids(ts[k])
  {
    if n !in Ids(ts[0]) {
      k := IdsOfWitness(ts[1..], n);
      k := k + 1;
    } else {
      k := 0;
    }
  }

  /** The trees a node's child list holds, each cut loose from its
      siblings: what pop collects into its worklist. */
  function Spine(t: Tree): (r: seq<Tree>)
    ensures Roots(r)
    ensures |r| == |SpineIds(t)|
    ensures forall k :: 0 <= k < |r| ==> r[k].id == SpineIds(t)[k]
  {
    match t
    case Nil => []
    case Node(i, c, s) => [Node(i, c, Nil)] + Spine(s)
  }

  /** The nodes of a list, from its first node along the sibling links. */
  function SpineIds(t: Tree): (r: seq<int>)
    ensures forall k :: 0 <= k < |r| ==> r[k] in Ids(t)
  {
    match t
    case Nil => []
    case Node(i, _, s) => [i] + SpineIds(s)
  }

  /** Cutting a list into its trees loses and adds no node. */
  lemma {:induction false} SpineIdsOf(t: Tree)
    ensures IdsOf(Spine(t)) == Ids(t)
  {
    if t.Node? {
      SpineIdsOf(t.sibling);
      assert Spine(t)[1..] == Spine(t.sibling);
    }
  }

  /** Cutting a list into its trees keeps their elements. */
  lemma {:induction false} SpineElemsOf(t: Tree, elt: seq<int>)
    ensures ElemsOf(Spine(t), elt) == Elems(t, elt)
  {
    if t.Node? {
      SpineElemsOf(t.sibling, elt);
      assert Spine(t)[1..] == Spine(t.sibling);
      assert Elems(Node(t.id, t.child, Nil), elt) == multiset{Val(elt, t.id)} + Elems(t.child, elt);
    }
  }

  /** Heap order of a list carries over to each of its trees. */
  lemma {:induction false} SpineOrdered(t: Tree, elt: seq<int>)
    requires HeapOrdered(t, elt)
    ensures AllOrdered(Spine(t), elt)
  {
    if t.Node? {
      SpineOrdered(t.sibling, elt);
      var sp := Spine(t);
      forall k | 0 <= k < |sp| ensures HeapOrdered(sp[k], elt) {
        if k > 0 { assert sp[k] == Spine(t.sibling)[k - 1]; }
      }
    }
  }

  /** Cutting a tree's list yields disjoint trees. */
  lemma {:induction false} SpineDisjoint(t: Tree)
    requires Distinct(t)
    ensures Disjoint(Spine(t))
  {
    if t.Node? {
      var r := Spine(t.sibling);
      SpineDisjoint(t.sibling);
      SpineIdsOf(t.sibling);
      var sp := Spine(t);
      assert sp == [Node(t.id, t.child, Nil)] + r;
      forall k | 0 <= k < |sp| ensures Distinct(sp[k]) {
        if k > 0 { assert sp[k] == r[k - 1]; }
      }
      forall k, l | 0 <= k < l < |sp| ensures Ids(sp[k]) !! Ids(sp[l]) {
        assert sp[l] == r[l - 1];
        if k == 0 {
          IdsOfMember(r, l - 1);
        } else {
          assert sp[k] == r[k - 1];
        }
      }
    }
  }

  /** Both of the above. */
  lemma SpineProps(t: Tree, elt: seq<int>)
    ensures IdsOf(Spine(t)) == Ids(t)
    ensures ElemsOf(Spine(t), elt) == Elems(t, elt)
    ensures Distinct(t) ==> Disjoint(Spine(t))
    ensures HeapOrdered(t, elt) ==> AllOrdered(Spine(t), elt)
  {
    SpineIdsOf(t);
    SpineElemsOf(t, elt);
    if Distinct(t) {
      SpineDisjoint(t);
    }
    if HeapOrdered(t, elt) {
      SpineOrdered(t, elt);
    }
  }

  /** Clearing the sibling link of every node of a list cuts it into the
      trees of its spine, each still reaching its own child list. */
  lemma {:induction false} SpineCutRep(t: Tree, x: int, c: seq<int>, s: seq<int>, s': seq<int>)
    requires Rep(t, x, c, s) && Distinct(t)
    requires forall j :: j in Ids(t) ==> 0 <= j < |s'| && j < |s| && s'[j] == (if j in SpineIds(t) then Null else s[j])
    ensures Heads(Spine(t), SpineIds(t), c, s')
  {
    if t.Node? {
      var i, ch, sib := t.id, t.child, t.sibling;
      assert SpineIds(t) == [i] + SpineIds(sib);
      assert Spine(t) == [Node(i, ch, Nil)] + Spine(sib);
      RepFrame(ch, c[i], c, s, c, s');
      forall j | j in Ids(sib) ensures 0 <= j < |s'| && j < |s| && s'[j] == (if j in SpineIds(sib) then Null else s[j]) {
        assert j != i;
      }
      SpineCutRep(sib, s[i], c, s, s');
      forall k | 0 <= k < |Spine(t)| ensures Rep(Spine(t)[k], SpineIds(t)[k], c, s') {
        if k > 0 {
          assert Spine(t)[k] == Spine(sib)[k - 1];
        }
      }
    }
  }

  /** Clearing the parent link of every node of a list leaves each tree of
      its spine owned by nothing, with the links below unchanged. */
  lemma {:induction false} SpineCutOwned(t: Tree, o: int, p: seq<int>, p': seq<int>)
    requires Owned(t, o, p) && Distinct(t)
    requires forall j :: j in Ids(t) ==> 0 <= j < |p'| && j < |p| && p'[j] == (if j in SpineIds(t) then Null else p[j])
    ensures AllOwned(Spine(t), p')
  {
    if t.Node? {
      var i, ch, sib := t.id, t.child, t.sibling;
      assert SpineIds(t) == [i] + SpineIds(sib);
      assert Spine(t) == [Node(i, ch, Nil)] + Spine(sib);
      OwnedFrame(ch, i, p, p');
      forall j | j in Ids(sib) ensures 0 <= j < |p'| && j < |p| && p'[j] == (if j in SpineIds(sib) then Null else p[j]) {
        assert j != i;
      }
      SpineCutOwned(sib, o, p, p');
      forall k | 0 <= k < |Spine(t)| ensures Owned(Spine(t)[k], Null, p') {
        if k > 0 {
          assert Spine(t)[k] == Spine(sib)[k - 1];
        }
      }
    }
  }

  /** The first loop of pop, as a whole: with the sibling and parent links
      of every node of list `l` cleared, the list's trees head a worklist,
      and correct parent links stay correct in it. */
  lemma SpineCut(l: Tree, x: int, c: seq<int>, s: seq<int>, s': seq<int>, o: int, p: seq<int>, p': seq<int>, S: set<int>)
    requires Rep(l, x, c, s) && Distinct(l) && |s| == |c| && |p| == |c| && |s'| == |s| && |p'| == |p|
    requires forall j :: 0 <= j < |s| ==> s'[j] == (if j in SpineIds(l) then Null else s[j])
    requires forall j :: 0 <= j < |p| ==> p'[j] == (if j in SpineIds(l) then Null else p[j])
    ensures Roots(Spine(l)) && Disjoint(Spine(l)) && Heads(Spine(l), SpineIds(l), c, s')
    ensures Owned(l, o, p) ==> AllOwned(Spine(l), p')
    ensures KnownIn(l, o, p, S) ==> ForestKnown(Spine(l), p', S)
  {
    PointsInside(l, x, c, s);
    SpineDisjoint(l);
    SpineCutRep(l, x, c, s, s');
    if Owned(l, o, p) {
      SpineCutOwned(l, o, p, p');
    }
    if KnownIn(l, o, p, S) {
      SpineKnown(l, o, p, p', S);
    }
  }

  /** Node xs[k] of the arena reaches exactly the tree ts[k]. */
  ghost predicate Heads(ts: seq<Tree>, xs: seq<int>, c: seq<int>, s: seq<int>) {
    |xs| == |ts| && forall k :: 0 <= k < |ts| ==> Rep(ts[k], xs[k], c, s)
  }

  /** Every tree of the forest records no owner for its top node. */
  ghost predicate AllOwned(ts: seq<Tree>, p: seq<int>) {
    forall k :: 0 <= k < |ts| ==> Owned(ts[k], Null, p)
  }

  lemma HeadsSnoc(ts: seq<Tree>, xs: seq<int>, t: Tree, x: int, c: seq<int>, s: seq<int>)
    requires Heads(ts, xs, c, s) && Rep(t, x, c, s)
    ensures Heads(ts + [t], xs + [x], c, s)
  {
    forall k | 0 <= k < |ts| + 1 ensures Rep((ts + [t])[k], (xs + [x])[k], c, s) {
      if k < |ts| {
        assert (ts + [t])[k] == ts[k] && (xs + [x])[k] == xs[k];
      }
    }
  }

  lemma AllOwnedSnoc(ts: seq<Tree>, t: Tree, p: seq<int>)
    requires AllOwned(ts, p) && Owned(t, Null, p)
    ensures AllOwned(ts + [t], p)
  {
    forall k | 0 <= k < |ts| + 1 ensures Owned((ts + [t])[k], Null, p) {
      if k < |ts| {
        assert (ts + [t])[k] == ts[k];
      }
    }
  }

  /** Links outside a forest's trees do not matter to it: changing the
      child link of node `w` and the sibling link of node `l` keeps the view
      of every tree that reaches neither. */
  lemma ForestFrame(ts: seq<Tree>, xs: seq<int>, c: seq<int>, s: seq<int>, w: int, cw: int, l: int, sl: int)
    requires 0 <= w < |c| && 0 <= l < |s| && Heads(ts, xs, c, s)
    requires forall k :: 0 <= k < |ts| ==> w !in Ids(ts[k]) && l !in Ids(ts[k])
    ensures Heads(ts, xs, c[w := cw], s[l := sl])
  {
    forall k | 0 <= k < |ts| ensures Rep(ts[k], xs[k], c[w := cw], s[l := sl]) {
      RepFrame(ts[k], xs[k], c, s, c[w := cw], s[l := sl]);
    }
  }

  /** Parent links outside a forest's trees do not matter to it. */
  lemma ForestOwnedFrame(ts: seq<Tree>, p: seq<int>, a: int, v: int)
    requires 0 <= a < |p| && AllOwned(ts, p)
    requires forall k :: 0 <= k < |ts| ==> a !in Ids(ts[k])
    ensures AllOwned(ts, p[a := v])
  {
    forall k | 0 <= k < |ts| ensures Owned(ts[k], Null, p[a := v]) {
      OwnedFrame(ts[k], Null, p, p[a := v]);
    }
  }

  /** The FIFO pairwise reduction of pop: meld the two front trees, append
      the result at the back, until at most one tree is left. */
  function Reduce(ts: seq<Tree>, elt: seq<int>): (r: Tree)
    requires Roots(ts)
    ensures r.Nil? <==> ts == []
    ensures r.Node? ==> r.sibling == Nil
    decreases |ts|
  {
    if |ts| == 0 then Nil
    else if |ts| == 1 then ts[0]
    else Reduce(ts[2..] + [Melded(ts[0], ts[1], elt)], elt)
  }

  lemma {:induction false} Forest1(a: Tree, elt: seq<int>)
    ensures IdsOf([a]) == Ids(a) && ElemsOf([a], elt) == Elems(a, elt)
  {
    assert [a][1..] == [];
  }

  lemma {:induction false} Forest2(a: Tree, b: Tree, elt: seq<int>)
    ensures IdsOf([a, b]) == Ids(a) + Ids(b) && ElemsOf([a, b], elt) == Elems(a, elt) + Elems(b, elt)
  {
    assert [a, b][1..] == [b];
    Forest1(b, elt);
  }

  /** One step of the reduction keeps the forest's nodes and elements. */
  lemma {:induction false} ReduceStepContents(ts: seq<Tree>, elt: seq<int>)
    requires Roots(ts) && |ts| >= 2
    ensures IdsOf(ts[2..] + [Melded(ts[0], ts[1], elt)]) == IdsOf(ts)
    ensures ElemsOf(ts[2..] + [Melded(ts[0], ts[1], elt)], elt) == ElemsOf(ts, elt)
  {
    var m := Melded(ts[0], ts[1], elt);
    var rest := ts[2..];
    MeldContents(ts[0], ts[1], elt);
    assert ts == [ts[0], ts[1]] + rest;
    Forest2(ts[0], ts[1], elt);
    Forest1(m, elt);
    IdsOfAppend([ts[0], ts[1]], rest);
    ElemsOfAppend([ts[0], ts[1]], rest, elt);
    IdsOfAppend(rest, [m]);
    ElemsOfAppend(rest, [m], elt);
  }

  /** One step of the reduction keeps the forest's trees disjoint. */
  lemma {:induction false} ReduceStepDisjoint(ts: seq<Tree>, elt: seq<int>)
    requires Roots(ts) && |ts| >= 2 && Disjoint(ts)
    ensures Roots(ts[2..] + [Melded(ts[0], ts[1], elt)])
    ensures Disjoint(ts[2..] + [Melded(ts[0], ts[1], elt)])
  {
    var m := Melded(ts[0], ts[1], elt);
    var rest := ts[2..];
    var ts' := rest + [m];
    MeldContents(ts[0], ts[1], elt);
    MeldKeepsOrder(ts[0], ts[1], elt);
    assert Ids(ts[0]) !! Ids(ts[1]);
    forall k | 0 <= k < |ts'| ensures Distinct(ts'[k]) {
      if k < |rest| { assert ts'[k] == ts[k + 2]; }
    }
    forall k, l | 0 <= k < l < |ts'| ensures Ids(ts'[k]) !! Ids(ts'[l]) {
      assert ts'[k] == ts[k + 2];
      if l < |rest| {
        assert ts'[l] == ts[l + 2];
      } else {
        assert Ids(ts[k + 2]) !! Ids(ts[0]) && Ids(ts[k + 2]) !! Ids(ts[1]);
      }
    }
  }

  /** One step of the reduction keeps every tree of the forest heap-ordered. */
  lemma {:induction false} ReduceStepOrdered(ts: seq<Tree>, elt: seq<int>)
    requires Roots(ts) && |ts| >= 2 && AllOrdered(ts, elt)
    ensures AllOrdered(ts[2..] + [Melded(ts[0], ts[1], elt)], elt)
  {
    var m := Melded(ts[0], ts[1], elt);
    var rest := ts[2..];
    var ts' := rest + [m];
    MeldKeepsOrder(ts[0], ts[1], elt);
    forall k | 0 <= k < |ts'| ensures HeapOrdered(ts'[k], elt) {
      if k < |rest| { assert ts'[k] == ts[k + 2]; }
    }
  }

  /** The reduction keeps every node and element of the forest. */
  lemma {:induction false} ReduceContents(ts: seq<Tree>, elt: seq<int>)
    requires Roots(ts)
    ensures Ids(Reduce(ts, elt)) == IdsOf(ts)
    ensures Elems(Reduce(ts, elt), elt) == ElemsOf(ts, elt)
    decreases |ts|
  {
    if |ts| == 1 {
      assert ts == [ts[0]];
      Forest1(ts[0], elt);
    } else if |ts| > 1 {
      ReduceStepContents(ts, elt);
      ReduceContents(ts[2..] + [Melded(ts[0], ts[1], elt)], elt);
    }
  }

  /** The reduction of a forest of disjoint trees has no node twice, and
      that of heap-ordered trees is heap-ordered. */
  lemma {:induction false} ReduceDistinctOrdered(ts: seq<Tree>, elt: seq<int>)
    requires Roots(ts)
    ensures Disjoint(ts) ==> Distinct(Reduce(ts, elt))
    ensures AllOrdered(ts, elt) ==> HeapOrdered(Reduce(ts, elt), elt)
    decreases |ts|
  {
    if |ts| == 1 {
      assert ts == [ts[0]];
    } else if |ts| > 1 {
      if Disjoint(ts) { ReduceStepDisjoint(ts, elt); }
      if AllOrdered(ts, elt) { ReduceStepOrdered(ts, elt); }
      ReduceDistinctOrdered(ts[2..] + [Melded(ts[0], ts[1], elt)], elt);
    }
  }

  /** The reduction keeps every node and element of the forest, leaves no
      tree or a single tree, and keeps disjointness and heap order. */
  lemma ReduceProps(ts: seq<Tree>, elt: seq<int>)
    requires Roots(ts)
    ensures Ids(Reduce(ts, elt)) == IdsOf(ts)
    ensures Elems(Reduce(ts, elt), elt) == ElemsOf(ts, elt)
    ensures Reduce(ts, elt).Nil? <==> ts == []
    ensures Reduce(ts, elt).Node? ==> Reduce(ts, elt).sibling == Nil
    ensures Disjoint(ts) ==> Distinct(Reduce(ts, elt))
    ensures AllOrdered(ts, elt) ==> HeapOrdered(Reduce(ts, elt), elt)
  {
    ReduceContents(ts, elt);
    ReduceDistinctOrdered(ts, elt);
  }

  /** What pop leaves: the FIFO reduction of the old root's children. For a
      single tree, exactly the old root is gone. */
  lemma {:induction false} PopIds(t: Tree, elt: seq<int>)
    requires t.Node? && t.sibling == Nil && Distinct(t)
    ensures Ids(Reduce(Spine(t.child), elt)) == Ids(t) - {t.id}
  {
    SpineProps(t.child, elt);
    ReduceProps(Spine(t.child), elt);
    assert Ids(t) == {t.id} + Ids(t.child);
  }

  /** pop sets aside exactly the old root's element. */
  lemma {:induction false} PopElems(t: Tree, elt: seq<int>)
    requires t.Node? && t.sibling == Nil
    ensures Elems(Reduce(Spine(t.child), elt), elt) == Elems(t, elt) - multiset{Val(elt, t.id)}
  {
    SpineProps(t.child, elt);
    ReduceProps(Spine(t.child), elt);
    assert Elems(t, elt) == multiset{Val(elt, t.id)} + Elems(t.child, elt);
  }

  /** pop leaves a tree, again a single one (or nothing), and keeps heap
      order. */
  lemma {:induction false} PopShape(t: Tree, elt: seq<int>)
    requires t.Node? && Distinct(t)
    ensures Distinct(Reduce(Spine(t.child), elt))
    ensures Reduce(Spine(t.child), elt).Node? ==> Reduce(Spine(t.child), elt).sibling == Nil
    ensures HeapOrdered(t, elt) ==> HeapOrdered(Reduce(Spine(t.child), elt), elt)
  {
    SpineProps(t.child, elt);
    ReduceProps(Spine(t.child), elt);
  }

  /** pop leaves one node fewer. */
  lemma {:induction false} PopCount(t: Tree, elt: seq<int>)
    requires t.Node? && t.sibling == Nil && Distinct(t)
    ensures Count(Reduce(Spine(t.child), elt)) == Count(t) - 1
  {
    var r := Reduce(Spine(t.child), elt);
    PopIds(t, elt);
    PopShape(t, elt);
    CountIsIds(t);
    CountIsIds(r);
  }

  // ---------------------------------------------------------------------
  // Unlinking a node from its parent's child list (updateElt)

  /** The subtree of `t` that starts at node `n` (Nil if `n` is absent). */
  function Sub(t: Tree, n: int): (r: Tree)
    ensures n in Ids(t) ==> r.Node? && r.id == n && Ids(r) <= Ids(t)
  {
    match t
    case Nil => Nil
    case Node(i, c, s) => if i == n then t else if n in Ids(c) then Sub(c, n) else Sub(s, n)
  }

  /** `t` with node `n` (and what hangs below it) taken off the list it is
      on: the link that led to `n` now leads to `n`'s sibling. */
  function Detach(t: Tree, n: int): (r: Tree)
    ensures Ids(r) <= Ids(t)
  {
    match t
    case Nil => Nil
    case Node(i, c, s) => if i == n then s else Node(i, Detach(c, n), Detach(s, n))
  }

  lemma {:induction false} SubProps(t: Tree, n: int, x: int, c: seq<int>, s: seq<int>)
    requires Rep(t, x, c, s) && Distinct(t) && n in Ids(t)
    ensures Distinct(Sub(t, n)) && Rep(Sub(t, n), n, c, s)
  {
    if t.id != n {
      if n in Ids(t.child) {
        SubProps(t.child, n, c[t.id], c, s);
      } else {
        SubProps(t.sibling, n, s[t.id], c, s);
      }
    }
  }

  lemma {:induction false} DetachAbsent(t: Tree, n: int)
    requires n !in Ids(t)
    ensures Detach(t, n) == t
  {
    if t.Node? {
      DetachAbsent(t.child, n);
      DetachAbsent(t.sibling, n);
    }
  }

  /** Detaching `n` removes exactly `n` and its child list and keeps the
      rest a tree. */
  lemma {:induction false} DetachIds(t: Tree, n: int)
    requires Distinct(t) && n in Ids(t)
    ensures Ids(Detach(t, n)) == Ids(t) - ({n} + Ids(Sub(t, n).child))
    ensures Distinct(Detach(t, n)) && Distinct(Sub(t, n))
  {
    if t.id != n {
      if n in Ids(t.child) {
        DetachIds(t.child, n);
        DetachAbsent(t.sibling, n);
      } else {
        DetachIds(t.sibling, n);
        DetachAbsent(t.child, n);
      }
    }
  }

  /** Detaching `n` sets aside exactly the elements of `n` and its child list. */
  lemma {:induction false} DetachElems(t: Tree, n: int, elt: seq<int>)
    requires Distinct(t) && n in Ids(t)
    ensures Elems(Detach(t, n), elt) + Elems(Node(n, Sub(t, n).child, Nil), elt) == Elems(t, elt)
  {
    if t.id != n {
      if n in Ids(t.child) {
        DetachElems(t.child, n, elt);
        DetachAbsent(t.sibling, n);
      } else {
        DetachElems(t.sibling, n, elt);
        DetachAbsent(t.child, n);
      }
    }
  }

  /** Detaching keeps heap order on both parts. */
  lemma {:induction false} DetachOrder(t: Tree, n: int, elt: seq<int>)
    requires HeapOrdered(t, elt)
    ensures HeapOrdered(Detach(t, n), elt) && HeapOrdered(Sub(t, n), elt)
  {
    if t.Node? {
      DetachOrder(t.child, n, elt);
      DetachOrder(t.sibling, n, elt);
      BoundedDetach(t.child, n, Val(elt, t.id), elt);
    }
  }

  lemma {:induction false} BoundedDetach(t: Tree, n: int, b: int, elt: seq<int>)
    requires Bounded(t, b, elt)
    ensures Bounded(Detach(t, n), b, elt)
  {
    if t.Node? {
      BoundedDetach(t.child, n, b, elt);
      BoundedDetach(t.sibling, n, b, elt);
    }
  }

  /** Redirecting the one link that leads to `n` (the child link or the
      sibling link of node `w`) to `n`'s sibling yields the view of
      Detach(t, n). */
  lemma {:induction false} DetachRep(t: Tree, x: int, c: seq<int>, s: seq<int>, c': seq<int>, s': seq<int>,
                                     w: int, viaChild: bool, n: int)
    requires Rep(t, x, c, s) && Distinct(t) && w in Ids(t) && 0 <= w < |c| && w < |s| && 0 <= n < |s|
    requires viaChild ==> c[w] == n && c' == c[w := s[n]] && s' == s
    requires !viaChild ==> s[w] == n && s' == s[w := s[n]] && c' == c
    ensures n in Ids(t) && n != x
    ensures Rep(Detach(t, n), x, c', s')
  {
    PointsInside(t, x, c, s);
    RootUnpointed(t, x, c, s);
    var i, l, r := t.id, t.child, t.sibling;
    PointsInside(l, c[i], c, s);
    PointsInside(r, s[i], c, s);
    if w == i {
      if viaChild {
        var rn := l.sibling;
        assert Detach(l, n) == rn;
        DetachAbsent(r, n);
        RepFrame(rn, s[n], c, s, c', s');
        RepFrame(r, s[i], c, s, c', s');
      } else {
        var rn := r.sibling;
        assert Detach(r, n) == rn;
        DetachAbsent(l, n);
        RepFrame(rn, s[n], c, s, c', s');
        RepFrame(l, c[i], c, s, c', s');
      }
    } else if w in Ids(l) {
      DetachRep(l, c[i], c, s, c', s', w, viaChild, n);
      DetachAbsent(r, n);
      RepFrame(r, s[i], c, s, c', s');
    } else {
      DetachRep(r, s[i], c, s, c', s', w, viaChild, n);
      DetachAbsent(l, n);
      RepFrame(l, c[i], c, s, c', s');
    }
  }

  /** After the redirection and clearing `n`'s sibling link, `n` heads a
      single tree holding its old child list, and the rest is Detach(t, n). */
  lemma {:induction false} UnlinkRep(t: Tree, x: int, c: seq<int>, s: seq<int>, c': seq<int>, s': seq<int>,
                  w: int, viaChild: bool, n: int)
    requires Rep(t, x, c, s) && Distinct(t) && w in Ids(t) && 0 <= w < |c| && w < |s| && 0 <= n < |s|
    requires viaChild ==> c[w] == n && c' == c[w := s[n]] && s' == s
    requires !viaChild ==> s[w] == n && s' == s[w := s[n]] && c' == c
    ensures n in Ids(t) && n != x
    ensures Rep(Detach(t, n), x, c', s'[n := Null])
    ensures IsRoot(Node(n, Sub(t, n).child, Nil), n, c', s'[n := Null])
  {
    DetachRep(t, x, c, s, c', s', w, viaChild, n);
    DetachIds(t, n);
    SubProps(t, n, x, c, s);
    var sub := Sub(t, n);
    PointsInside(sub.child, c[n], c, s);
    RepFrame(Detach(t, n), x, c', s', c', s'[n := Null]);
    RepFrame(sub.child, c[n], c, s, c', s'[n := Null]);
  }

  /** The nodes of a list, read along the sibling links. */
  lemma {:induction false} SpineLinks(t: Tree, x: int, c: seq<int>, s: seq<int>)
    requires Rep(t, x, c, s)
    ensures SpineIds(t) == [] <==> x == Null
    ensures SpineIds(t) != [] ==> SpineIds(t)[0] == x
    ensures forall k :: 0 <= k < |SpineIds(t)| ==> 0 <= SpineIds(t)[k] < |s|
    ensures forall k :: 0 <= k < |SpineIds(t)| - 1 ==> s[SpineIds(t)[k]] == SpineIds(t)[k + 1]
    ensures Distinct(t) ==> forall k, l :: 0 <= k < l < |SpineIds(t)| ==> SpineIds(t)[k] != SpineIds(t)[l]
  {
    if t.Node? {
      SpineLinks(t.sibling, s[x], c, s);
      var r := SpineIds(t.sibling);
      assert SpineIds(t) == [x] + r;
      if Distinct(t) {
        forall l | 0 <= l < |r| ensures r[l] != x {
          assert r[l] in Ids(t.sibling);
        }
      }
    }
  }

  /** A bound of a tree bounds each of its nodes. */
  lemma {:induction false} BoundedMember(t: Tree, b: int, elt: seq<int>, n: int)
    requires Bounded(t, b, elt) && n in Ids(t)
    ensures Val(elt, n) <= b
  {
    if t.id != n {
      if n in Ids(t.child) {
        BoundedMember(t.child, b, elt, n);
      } else {
        BoundedMember(t.sibling, b, elt, n);
      }
    }
  }

  /** What updateElt means to leave: node `n` with its child list cut out
      of `t` and melded back with what remains. */
  function Relinked(t: Tree, n: int, elt: seq<int>): (r: Tree)
    requires t.Node? && n in Ids(t) && n != t.id
    ensures r.Node? && (t.sibling == Nil ==> r.sibling == Nil)
  {
    assert Detach(t, n).sibling == Detach(t.sibling, n);
    Melded(Detach(t, n), Node(n, Sub(t, n).child, Nil), elt)
  }

  /** Cutting node `n` out splits the nodes of `t` in two disjoint parts:
      what stays, and `n` with its child list. */
  lemma {:induction false} CutIds(t: Tree, n: int)
    requires Distinct(t) && n in Ids(t)
    ensures Ids(Detach(t, n)) + Ids(Node(n, Sub(t, n).child, Nil)) == Ids(t)
    ensures Ids(Detach(t, n)) !! Ids(Node(n, Sub(t, n).child, Nil))
    ensures Distinct(Detach(t, n)) && Distinct(Node(n, Sub(t, n).child, Nil))
  {
    DetachIds(t, n);
    var cut := {n} + Ids(Sub(t, n).child);
    assert Ids(Node(n, Sub(t, n).child, Nil)) == cut;
    assert Ids(Sub(t, n)) <= Ids(t);
  }

  /** Re-linking a node keeps the nodes of a single tree. */
  lemma {:induction false} RelinkedIds(t: Tree, n: int, elt: seq<int>)
    requires t.Node? && t.sibling == Nil && Distinct(t) && n in Ids(t) && n != t.id
    ensures Ids(Relinked(t, n, elt)) == Ids(t)
    ensures Distinct(Relinked(t, n, elt))
  {
    var d, u := Detach(t, n), Node(n, Sub(t, n).child, Nil);
    CutIds(t, n);
    assert d.sibling == Nil;
    MeldIds(d, u, elt);
    MeldKeepsOrder(d, u, elt);
  }

  /** ... and their number. */
  lemma {:induction false} RelinkedCount(t: Tree, n: int, elt: seq<int>)
    requires t.Node? && t.sibling == Nil && Distinct(t) && n in Ids(t) && n != t.id
    ensures Count(Relinked(t, n, elt)) == Count(t)
  {
    RelinkedIds(t, n, elt);
    CountIsIds(t);
    CountIsIds(Relinked(t, n, elt));
  }

  /** Cutting node `n` out sets aside its element and its child list. */
  lemma {:induction false} CutElems(t: Tree, n: int, elt: seq<int>)
    requires Distinct(t) && n in Ids(t)
    ensures Elems(t, elt) == Elems(Detach(t, n), elt) + multiset{Val(elt, n)} + Elems(Sub(t, n).child, elt)
  {
    DetachElems(t, n, elt);
    assert Elems(Node(n, Sub(t, n).child, Nil), elt) == multiset{Val(elt, n)} + Elems(Sub(t, n).child, elt);
  }

  /** After node `n` gets the element `v`, the re-linked tree holds the two
      parts with `v` in place of n's old element. */
  lemma {:induction false} RelinkedParts(t: Tree, n: int, elt: seq<int>, v: int)
    requires t.Node? && t.sibling == Nil && Distinct(t) && n in Ids(t) && n != t.id && 0 <= n < |elt|
    ensures Elems(Relinked(t, n, elt[n := v]), elt[n := v]) ==
      Elems(Detach(t, n), elt) + multiset{v} + Elems(Sub(t, n).child, elt)
  {
    var e := elt[n := v];
    var d, u := Detach(t, n), Node(n, Sub(t, n).child, Nil);
    CutIds(t, n);
    ValsFrame(d, elt, e);
    ValsFrame(u.child, elt, e);
    assert d.sibling == Nil;
    MeldElems(d, u, e);
  }

  /** Giving node `n` the element `v` and re-linking it replaces one
      occurrence of its old element by `v`. */
  lemma {:induction false} RelinkedElems(t: Tree, n: int, elt: seq<int>, v: int)
    requires t.Node? && t.sibling == Nil && Distinct(t) && n in Ids(t) && n != t.id && 0 <= n < |elt|
    ensures Elems(Relinked(t, n, elt[n := v]), elt[n := v]) == Elems(t, elt) - multiset{elt[n]} + multiset{v}
  {
    CutElems(t, n, elt);
    RelinkedParts(t, n, elt, v);
  }

  /** Raising the element of node `n` and re-linking it keeps heap order. */
  lemma {:induction false} RelinkedOrder(t: Tree, n: int, elt: seq<int>, v: int)
    requires t.Node? && t.sibling == Nil && Distinct(t) && n in Ids(t) && n != t.id && 0 <= n < |elt|
    requires HeapOrdered(t, elt) && elt[n] <= v
    ensures HeapOrdered(Relinked(t, n, elt[n := v]), elt[n := v])
  {
    var e := elt[n := v];
    var d, u := Detach(t, n), Node(n, Sub(t, n).child, Nil);
    DetachIds(t, n);
    DetachOrder(t, n, elt);
    assert Bounded(u.child, elt[n], elt) && HeapOrdered(u.child, elt);
    BoundedWeaken(u.child, elt[n], v, elt);
    ValsFrame(d, elt, e);
    ValsFrame(u.child, elt, e);
    MeldKeepsOrder(d, u, e);
  }

  /** Changing the root's element in place replaces it in the contents. */
  lemma RaiseRootElems(t: Tree, elt: seq<int>, v: int)
    requires t.Node? && t.sibling == Nil && Distinct(t) && 0 <= t.id < |elt|
    ensures Elems(t, elt[t.id := v]) == Elems(t, elt) - multiset{elt[t.id]} + multiset{v}
  {
    var e := elt[t.id := v];
    ValsFrame(t.child, elt, e);
    assert Elems(t, elt) == multiset{elt[t.id]} + Elems(t.child, elt);
    assert Elems(t, e) == multiset{v} + Elems(t.child, e);
  }

  /** Raising the root's element keeps heap order. */
  lemma RaiseRootOrder(t: Tree, elt: seq<int>, v: int)
    requires t.Node? && t.sibling == Nil && Distinct(t) && 0 <= t.id < |elt|
    requires HeapOrdered(t, elt) && elt[t.id] <= v
    ensures HeapOrdered(t, elt[t.id := v])
  {
    var e := elt[t.id := v];
    ValsFrame(t.child, elt, e);
    BoundedWeaken(t.child, elt[t.id], v, elt);
  }

  // ---------------------------------------------------------------------
  // Parent links

  /** Every node of `t` records in `parent` the node owning the list it is
      on; the nodes of the top list record `owner`. */
  ghost predicate Owned(t: Tree, owner: int, parent: seq<int>) {
    match t
    case Nil => true
    case Node(i, c, s) =>
      0 <= i < |parent| && parent[i] == owner && Owned(c, i, parent) && Owned(s, owner, parent)
  }

  lemma {:induction false} OwnedFrame(t: Tree, o: int, p: seq<int>, p': seq<int>)
    requires Owned(t, o, p)
    requires forall i :: i in Ids(t) && 0 <= i < |p| ==> i < |p'| && p'[i] == p[i]
    ensures Owned(t, o, p')
  {
    if t.Node? {
      OwnedFrame(t.child, t.id, p, p');
      OwnedFrame(t.sibling, o, p, p');
    }
  }

  /** Unlinking a node keeps the parent links of what stays. */
  lemma {:induction false} OwnedDetach(t: Tree, n: int, o: int, p: seq<int>)
    requires Owned(t, o, p)
    ensures Owned(Detach(t, n), o, p)
  {
    if t.Node? && t.id != n {
      OwnedDetach(t.child, n, t.id, p);
      OwnedDetach(t.sibling, n, o, p);
    }
  }

  /** Clearing the parent link of an unlinked node leaves both parts with
      correct parent links, each owned by nothing. */
  lemma {:induction false} UnlinkOwned(t: Tree, n: int, p: seq<int>)
    requires Owned(t, Null, p) && Distinct(t) && n in Ids(t) && 0 <= n < |p|
    ensures Owned(Detach(t, n), Null, p[n := Null]) && Owned(Node(n, Sub(t, n).child, Nil), Null, p[n := Null])
  {
    DetachIds(t, n);
    OwnedDetach(t, n, Null, p);
    OwnedFrame(Detach(t, n), Null, p, p[n := Null]);
    OwnedSub(t, n, Null, p);
    OwnedFrame(Sub(t, n).child, n, p, p[n := Null]);
  }

  /** The child list of a node records that node as its owner. */
  lemma {:induction false} OwnedSub(t: Tree, n: int, o: int, p: seq<int>)
    requires Owned(t, o, p) && n in Ids(t)
    ensures Owned(Sub(t, n).child, n, p)
  {
    if t.id != n {
      if n in Ids(t.child) {
        OwnedSub(t.child, n, t.id, p);
      } else {
        OwnedSub(t.sibling, n, o, p);
      }
    }
  }

  /** The node whose child list holds `n` in `t`: `o` for a node of the
      top list, and for a node `t` does not reach. */
  function OwnerIn(t: Tree, o: int, n: int): (r: int)
    ensures n in Ids(t) && r != o ==> r in Ids(t)
  {
    match t
    case Nil => o
    case Node(i, c, s) => if i == n then o else if n in Ids(c) then OwnerIn(c, i, n) else OwnerIn(s, o, n)
  }

  /** Correct parent links record exactly these owners. */
  lemma {:induction false} OwnedOwner(t: Tree, o: int, p: seq<int>, n: int)
    requires Owned(t, o, p) && n in Ids(t)
    ensures 0 <= n < |p| && p[n] == OwnerIn(t, o, n)
  {
    if t.id != n {
      if n in Ids(t.child) {
        OwnedOwner(t.child, t.id, p, n);
      } else {
        OwnedOwner(t.sibling, o, p, n);
      }
    }
  }

  /** The owner of a node is the outer owner for a node of the top list, and
      otherwise a node whose child list holds it. */
  lemma {:induction false} OwnerInList(t: Tree, o: int, n: int)
    requires Distinct(t) && n in Ids(t)
    ensures (n in SpineIds(t) && OwnerIn(t, o, n) == o) ||
            (OwnerIn(t, o, n) in Ids(t) && n in SpineIds(Sub(t, OwnerIn(t, o, n)).child))
  {
    var i, c, s := t.id, t.child, t.sibling;
    if n == i {
    } else if n in Ids(c) {
      OwnerInList(c, i, n);
      var q := OwnerIn(c, i, n);
      if q in Ids(c) {
        assert Sub(t, q) == Sub(c, q);
      }
    } else {
      OwnerInList(s, o, n);
      var q := OwnerIn(s, o, n);
      if q in Ids(s) {
        assert q != i && q !in Ids(c);
        assert Sub(t, q) == Sub(s, q);
      }
    }
  }

  /** The owners meld leaves: the loser hangs under the winner, the winner
      under nothing, and every other node keeps its owner. */
  lemma MeldOwner(a: Tree, b: Tree, elt: seq<int>, h: int)
    requires a.Node? && b.Node? && a.sibling == Nil && b.sibling == Nil
    requires Distinct(a) && Distinct(b) && Ids(a) !! Ids(b) && h in Ids(a) + Ids(b)
    ensures OwnerIn(Melded(a, b, elt), Null, h) ==
      if h == a.id then (if Val(elt, a.id) < Val(elt, b.id) then b.id else Null)
      else if h == b.id then (if Val(elt, a.id) < Val(elt, b.id) then Null else a.id)
      else if h in Ids(a) then OwnerIn(a, Null, h) else OwnerIn(b, Null, h)
  {
  }

  /** Unlinking node `n` keeps the owner of every node that stays. */
  lemma {:induction false} DetachOwner(t: Tree, n: int, o: int, h: int)
    requires Distinct(t) && n in Ids(t) && h in Ids(Detach(t, n))
    ensures OwnerIn(Detach(t, n), o, h) == OwnerIn(t, o, h)
  {
    DetachIds(t, n);
    var i, c, s := t.id, t.child, t.sibling;
    if i != n && h != i {
      if n in Ids(c) {
        DetachAbsent(s, n);
        DetachIds(c, n);
        if h in Ids(Detach(c, n)) {
          DetachOwner(c, n, i, h);
        }
      } else {
        DetachAbsent(c, n);
        DetachIds(s, n);
        if h in Ids(Detach(s, n)) {
          DetachOwner(s, n, o, h);
        }
      }
    }
  }

  /** Below node `n`, a node's owner is found in `n`'s child list alone. */
  lemma {:induction false} SubOwner(t: Tree, n: int, o: int, h: int)
    requires Distinct(t) && n in Ids(t) && h in Ids(Sub(t, n).child)
    ensures OwnerIn(t, o, h) == OwnerIn(Sub(t, n).child, n, h)
  {
    var i, c, s := t.id, t.child, t.sibling;
    if i != n {
      if n in Ids(c) {
        SubOwner(c, n, i, h);
      } else {
        SubOwner(s, n, o, h);
      }
    }
  }

  /** The parent writes of updateElt's splice (a null link for the cut
      node, then the loser of meld recording the winner) keep every correct
      parent link correct. */
  lemma RelinkedKnown(t: Tree, n: int, elt: seq<int>, p: seq<int>, p': seq<int>)
    requires t.Node? && t.sibling == Nil && Distinct(t) && n in Ids(t) && n != t.id
    requires forall i :: i in Ids(t) ==> 0 <= i < |p| && i < |p'|
    requires forall i :: i in Ids(t) && i != n && i != t.id ==> p'[i] == p[i]
    requires p'[n] == (if Val(elt, t.id) < Val(elt, n) then Null else t.id)
    requires p'[t.id] == (if Val(elt, t.id) < Val(elt, n) then n else p[t.id])
    ensures KeepsKnown(t, p, Relinked(t, n, elt), p')
  {
    var d, u := Detach(t, n), Node(n, Sub(t, n).child, Nil);
    CutIds(t, n);
    assert d.id == t.id && d.sibling == Nil;
    forall h | h in Ids(t) && h in Ids(Relinked(t, n, elt)) && 0 <= h < |p| && p[h] == OwnerIn(t, Null, h)
      ensures 0 <= h < |p'| && p'[h] == OwnerIn(Relinked(t, n, elt), Null, h)
    {
      MeldOwner(d, u, elt, h);
      if h != n && h != t.id {
        if h in Ids(d) {
          DetachOwner(t, n, Null, h);
        } else {
          SubOwner(t, n, Null, h);
        }
      }
    }
  }

  /** The owner of `n` in a forest: its owner in the first tree holding it. */
  function OwnerInForest(ts: seq<Tree>, n: int): int {
    if ts == [] then Null
    else if n in Ids(ts[0]) then OwnerIn(ts[0], Null, n)
    else OwnerInForest(ts[1..], n)
  }

  lemma {:induction false} OwnerInForestAt(ts: seq<Tree>, k: nat, h: int)
    requires k < |ts| && h in Ids(ts[k])
    requires forall j :: 0 <= j < k ==> h !in Ids(ts[j])
    ensures OwnerInForest(ts, h) == OwnerIn(ts[k], Null, h)
  {
    if k > 0 {
      assert h !in Ids(ts[0]);
      forall j | 0 <= j < k - 1 ensures h !in Ids(ts[1..][j]) {
        assert ts[1..][j] == ts[j + 1];
      }
      OwnerInForestAt(ts[1..], k - 1, h);
    }
  }

  /** Every node of `S` is a node of `t` whose parent link records its
      owner, `o` standing for the owner of the top list. */
  ghost predicate KnownIn(t: Tree, o: int, p: seq<int>, S: set<int>) {
    forall h :: h in S ==> h in Ids(t) && 0 <= h < |p| && p[h] == OwnerIn(t, o, h)
  }

  /** The nodes of `t` whose parent link records their owner. */
  ghost function KnownSet(t: Tree, o: int, p: seq<int>): (r: set<int>)
    ensures KnownIn(t, o, p, r)
    ensures forall h :: h in Ids(t) && 0 <= h < |p| && p[h] == OwnerIn(t, o, h) ==> h in r
  {
    set h | h in Ids(t) && 0 <= h < |p| && p[h] == OwnerIn(t, o, h)
  }

  /** Every node of `S` is a node of the forest whose parent link records
      its owner in the tree holding it. */
  ghost predicate ForestKnown(ts: seq<Tree>, p: seq<int>, S: set<int>) {
    forall h :: h in S ==> h in IdsOf(ts) && 0 <= h < |p| && p[h] == OwnerInForest(ts, h)
  }

  /** The first loop of pop keeps the correct parent links of a child list
      correct in the forest it cuts the list into: the nodes of the list
      itself then head their trees and record no owner. */
  lemma {:induction false} SpineKnown(t: Tree, o: int, p: seq<int>, p': seq<int>, S: set<int>)
    requires Distinct(t) && KnownIn(t, o, p, S)
    requires forall j :: j in Ids(t) ==> 0 <= j < |p'| && j < |p| && p'[j] == (if j in SpineIds(t) then Null else p[j])
    ensures ForestKnown(Spine(t), p', S)
  {
    SpineIdsOf(t);
    forall h | h in S ensures p'[h] == OwnerInForest(Spine(t), h) {
      SpineKnownAt(t, o, p, p', h);
    }
  }

  lemma {:induction false} SpineKnownAt(t: Tree, o: int, p: seq<int>, p': seq<int>, h: int)
    requires Distinct(t) && h in Ids(t) && 0 <= h < |p| && 0 <= h < |p'| && p[h] == OwnerIn(t, o, h)
    requires p'[h] == (if h in SpineIds(t) then Null else p[h])
    ensures p'[h] == OwnerInForest(Spine(t), h)
  {
    var i, ch, sib := t.id, t.child, t.sibling;
    assert SpineIds(t) == [i] + SpineIds(sib);
    assert Spine(t)[0] == Node(i, ch, Nil) && Spine(t)[1..] == Spine(sib);
    if h != i {
      if h in Ids(ch) {
        assert h !in Ids(sib);
      } else {
        assert h !in Ids(Spine(t)[0]);
        SpineKnownAt(sib, o, p, p', h);
      }
    }
  }

  /** A forest reduced to at most one tree: its correct parent links are
      those of that tree. */
  lemma ForestKnownLast(ts: seq<Tree>, p: seq<int>, S: set<int>)
    requires |ts| <= 1 && ForestKnown(ts, p, S)
    ensures KnownIn(if ts == [] then Nil else ts[0], Null, p, S)
  {
    if ts != [] {
      assert ts == [ts[0]] && ts[1..] == [];
      forall h | h in S ensures h in Ids(ts[0]) && p[h] == OwnerIn(ts[0], Null, h) {
        Forest1(ts[0], []);
      }
    }
  }

  /** pop keeps every correct parent link correct: the nodes of the old
      root's child list whose links were correct are still correct in the
      reduction. */
  lemma PopKnown(t: Tree, elt: seq<int>, p: seq<int>, p': seq<int>)
    requires t.Node? && t.sibling == Nil && Distinct(t)
    requires KnownIn(Reduce(Spine(t.child), elt), Null, p', KnownSet(t.child, t.id, p))
    ensures KeepsKnown(t, p, Reduce(Spine(t.child), elt), p')
  {
    PopIds(t, elt);
  }

  /** One step of pop's reduction keeps every correct parent link correct:
      the loser of meld records the winner. */
  lemma {:induction false} ReduceStepKnown(ts: seq<Tree>, elt: seq<int>, p: seq<int>, p': seq<int>, S: set<int>)
    requires Roots(ts) && |ts| >= 2 && Disjoint(ts) && ForestKnown(ts, p, S)
    requires 0 <= ts[0].id < |p| && 0 <= ts[1].id < |p|
    requires p' == if Val(elt, ts[0].id) < Val(elt, ts[1].id) then p[ts[0].id := ts[1].id] else p[ts[1].id := ts[0].id]
    ensures ForestKnown(ts[2..] + [Melded(ts[0], ts[1], elt)], p', S)
  {
    var m := Melded(ts[0], ts[1], elt);
    var ts' := ts[2..] + [m];
    ReduceStepContents(ts, elt);
    MeldContents(ts[0], ts[1], elt);
    forall h | h in S ensures h in IdsOf(ts') && 0 <= h < |p'| && p'[h] == OwnerInForest(ts', h) {
      var k := IdsOfWitness(ts, h);
      forall j | 0 <= j < k ensures h !in Ids(ts[j]) {
        assert Ids(ts[j]) !! Ids(ts[k]);
      }
      OwnerInForestAt(ts, k, h);
      if k >= 2 {
        ReduceStepKeeps(ts, elt, k, h);
      } else {
        ReduceStepMelded(ts, elt, k, h);
        MeldOwner(ts[0], ts[1], elt, h);
      }
    }
  }

  /** A node of a tree behind the front two keeps its owner. */
  lemma ReduceStepKeeps(ts: seq<Tree>, elt: seq<int>, k: nat, h: int)
    requires Roots(ts) && Disjoint(ts) && 2 <= k < |ts| && h in Ids(ts[k])
    ensures h != ts[0].id && h != ts[1].id
    ensures OwnerInForest(ts[2..] + [Melded(ts[0], ts[1], elt)], h) == OwnerIn(ts[k], Null, h)
  {
    var ts' := ts[2..] + [Melded(ts[0], ts[1], elt)];
    assert Ids(ts[0]) !! Ids(ts[k]) && Ids(ts[1]) !! Ids(ts[k]);
    forall j | 0 <= j < k - 2 ensures h !in Ids(ts'[j]) {
      assert ts'[j] == ts[j + 2];
      assert Ids(ts[j + 2]) !! Ids(ts[k]);
    }
    assert ts'[k - 2] == ts[k];
    OwnerInForestAt(ts', k - 2, h);
  }

  /** A node of the front two trees finds its owner in their meld. */
  lemma ReduceStepMelded(ts: seq<Tree>, elt: seq<int>, k: nat, h: int)
    requires Roots(ts) && Disjoint(ts) && |ts| >= 2 && k < 2 && h in Ids(ts[k])
    ensures OwnerInForest(ts[2..] + [Melded(ts[0], ts[1], elt)], h) == OwnerIn(Melded(ts[0], ts[1], elt), Null, h)
  {
    var m := Melded(ts[0], ts[1], elt);
    var ts' := ts[2..] + [m];
    MeldContents(ts[0], ts[1], elt);
    forall j | 0 <= j < |ts| - 2 ensures h !in Ids(ts'[j]) {
      assert ts'[j] == ts[j + 2];
      assert Ids(ts[k]) !! Ids(ts[j + 2]);
    }
    assert ts'[|ts| - 2] == m;
    OwnerInForestAt(ts', |ts| - 2, h);
  }

  /** meld keeps the parent links: the loser records the winner, every
      other node keeps its own. */
  lemma {:induction false} MeldOwned(a: Tree, b: Tree, elt: seq<int>, p: seq<int>, p': seq<int>)
    requires a.Node? && b.Node? && a.sibling == Nil && b.sibling == Nil
    requires Distinct(a) && Distinct(b) && Ids(a) !! Ids(b)
    requires Owned(a, Null, p) && Owned(b, Null, p)
    requires Val(elt, a.id) < Val(elt, b.id) ==> p' == p[a.id := b.id]
    requires !(Val(elt, a.id) < Val(elt, b.id)) ==> p' == p[b.id := a.id]
    ensures Owned(Melded(a, b, elt), Null, p')
  {
    if Val(elt, a.id) < Val(elt, b.id) {
      OwnedFrame(a.child, a.id, p, p');
      OwnedFrame(b.child, b.id, p, p');
    } else {
      OwnedFrame(a.child, a.id, p, p');
      OwnedFrame(b.child, b.id, p, p');
    }
  }

  // ---------------------------------------------------------------------
  // Deep copy

  /** `u` in arena `e2` has the shape of `t` in arena `e1`, with the same
      element at every position. */
  ghost predicate Copied(t: Tree, e1: seq<int>, u: Tree, e2: seq<int>) {
    match t
    case Nil => u == Nil
    case Node(i, c, s) =>
      u.Node? && Val(e2, u.id) == Val(e1, i) &&
      Copied(c, e1, u.child, e2) && Copied(s, e1, u.sibling, e2)
  }

  /** A copy holds the same elements, the same number of nodes and, with
      the original, heap order. */
  lemma {:induction false} CopiedProps(t: Tree, e1: seq<int>, u: Tree, e2: seq<int>)
    requires Copied(t, e1, u, e2)
    ensures Elems(u, e2) == Elems(t, e1) && Count(u) == Count(t)
    ensures u.Nil? <==> t.Nil?
    ensures t.Node? ==> (u.sibling.Nil? <==> t.sibling.Nil?)
    ensures forall b :: Bounded(u, b, e2) <==> Bounded(t, b, e1)
    ensures HeapOrdered(u, e2) <==> HeapOrdered(t, e1)
  {
    if t.Node? {
      CopiedProps(t.child, e1, u.child, e2);
      CopiedProps(t.sibling, e1, u.sibling, e2);
    }
  }

  lemma {:induction false} CopiedFrame(t: Tree, e1: seq<int>, u: Tree, e2: seq<int>, e2': seq<int>)
    requires Copied(t, e1, u, e2) && SameVals(Ids(u), e2, e2')
    ensures Copied(t, e1, u, e2')
  {
    if t.Node? {
      CopiedFrame(t.child, e1, u.child, e2, e2');
      CopiedFrame(t.sibling, e1, u.sibling, e2, e2');
    }
  }

  /** The parent links copyNode leaves: the first node of every child list
      points at its owner, every later node of a list at nothing. */
  ghost predicate CopyParents(u: Tree, parent: seq<int>) {
    match u
    case Nil => true
    case Node(i, c, s) =>
      (c.Node? ==> 0 <= c.id < |parent| && parent[c.id] == i) &&
      (s.Node? ==> 0 <= s.id < |parent| && parent[s.id] == Null) &&
      CopyParents(c, parent) && CopyParents(s, parent)
  }

  /** Copied parent links are never all correct once a child list holds
      two nodes: the second one records nothing instead of its owner. */
  lemma CopyNotLinked(u: Tree, p: seq<int>)
    requires CopyParents(u, p) && u.Node? && u.id != Null && u.child.Node? && u.child.sibling.Node?
    ensures !Owned(u, Null, p)
  {
    var c := u.child;
    assert CopyParents(c, p) && p[c.sibling.id] == Null;
    assert Owned(u, Null, p) ==> Owned(c, u.id, p);
    assert Owned(c, u.id, p) ==> Owned(c.sibling, u.id, p);
  }

  /** A node above two trees numbered in separate ranges above it heads a
      tree. */
  lemma JoinDistinct(n: int, a: Tree, b: Tree, mid: int)
    requires Distinct(a) && Distinct(b) && n < mid
    requires forall i :: i in Ids(a) ==> n < i < mid
    requires forall i :: i in Ids(b) ==> mid <= i
    ensures Distinct(Node(n, a, b))
  {
    forall i | i in Ids(a) ensures i !in Ids(b) {
    }
  }

  lemma {:induction false} CopyParentsFrame(u: Tree, p: seq<int>, p': seq<int>)
    requires CopyParents(u, p) && Distinct(u) && |p| <= |p'|
    requires forall i :: i in Ids(u) && 0 <= i < |p| && (u.Nil? || i != u.id) ==> p'[i] == p[i]
    ensures CopyParents(u, p')
  {
    if u.Node? {
      CopyParentsFrame(u.child, p, p');
      CopyParentsFrame(u.sibling, p, p');
    }
  }

  /** The four per-node fields of an arena. */
  datatype Cells = Cells(elt: seq<int>, child: seq<int>, sibling: seq<int>, parent: seq<int>)

  predicate Sized(a: Cells) {
    |a.child| == |a.elt| && |a.sibling| == |a.elt| && |a.parent| == |a.elt|
  }

  /** `b` keeps every cell of `a` and may add more. */
  ghost predicate Grown(a: Cells, b: Cells) {
    a.elt <= b.elt && a.child <= b.child && a.sibling <= b.sibling && a.parent <= b.parent
  }

  /** What copyNode does to the arena it copies into: a new node for the
      root of `t` (with the element at the same position of `oe`), then the
      copy of its child list, then the copy of the rest of its list, then
      the parent links of both copies' first nodes. Yields the new arena,
      the copy's first node and the tree it reaches. */
  function CopyInto(t: Tree, oe: seq<int>, a: Cells): (res: (Cells, int, Tree))
    requires Sized(a)
    ensures Sized(res.0) && |a.elt| <= |res.0.elt|
    ensures t.Nil? ==> res.1 == Null && res.2 == Nil
    ensures t.Node? ==> res.2.Node? && res.1 == res.2.id
    ensures forall i :: i in Ids(res.2) ==> |a.elt| <= i < |res.0.elt|
    decreases t
  {
    match t
    case Nil => (a, Null, Nil)
    case Node(i, ct, st) =>
      var n := |a.elt|;
      var a1 := Cells(a.elt + [Val(oe, i)], a.child + [Null], a.sibling + [Null], a.parent + [Null]);
      var (a2, c, uc) := CopyInto(ct, oe, a1);
      var a3 := a2.(child := a2.child[n := c]);
      var (a4, s, us) := CopyInto(st, oe, a3);
      (CopyParentLinks(a4.(sibling := a4.sibling[n := s]), n, c, s), n, Node(n, uc, us))
  }

  /** The last two steps of copyNode: the copied child list's first node
      records node `n` as its parent, the copied sibling records n's own
      parent field. */
  function CopyParentLinks(a: Cells, n: int, c: int, s: int): (r: Cells)
    requires Sized(a) && 0 <= n < |a.elt|
    requires c != Null ==> 0 <= c < |a.elt|
    requires s != Null ==> 0 <= s < |a.elt|
    ensures r.elt == a.elt && r.child == a.child && r.sibling == a.sibling && |r.parent| == |a.parent|
  {
    var b := if c != Null then a.(parent := a.parent[c := n]) else a;
    if s != Null then b.(parent := b.parent[s := b.parent[n]]) else b
  }

  lemma CopyParentLinksAt(a: Cells, n: int, c: int, s: int)
    requires Sized(a) && 0 <= n < |a.elt|
    requires c != Null ==> n < c < |a.elt|
    requires s != Null ==> n < s < |a.elt| && s != c
    ensures c != Null ==> CopyParentLinks(a, n, c, s).parent[c] == n
    ensures s != Null ==> CopyParentLinks(a, n, c, s).parent[s] == a.parent[n]
    ensures forall i :: 0 <= i < |a.elt| && i != c && i != s ==> CopyParentLinks(a, n, c, s).parent[i] == a.parent[i]
  {
  }

  /** copyNode leaves every cell that was there before as it was. */
  lemma {:induction false} CopyIntoGrown(t: Tree, oe: seq<int>, a: Cells)
    requires Sized(a)
    ensures Grown(a, CopyInto(t, oe, a).0)
  {
    if t.Node? {
      var n := |a.elt|;
      var a1 := Cells(a.elt + [Val(oe, t.id)], a.child + [Null], a.sibling + [Null], a.parent + [Null]);
      var (a2, c, uc) := CopyInto(t.child, oe, a1);
      CopyIntoGrown(t.child, oe, a1);
      var a3 := a2.(child := a2.child[n := c]);
      CopyIntoGrown(t.sibling, oe, a3);
    }
  }

  /** The copy is a tree: no node twice. */
  lemma {:induction false} CopyIntoDistinct(t: Tree, oe: seq<int>, a: Cells)
    requires Sized(a)
    ensures Distinct(CopyInto(t, oe, a).2)
  {
    if t.Node? {
      var n := |a.elt|;
      var a1 := Cells(a.elt + [Val(oe, t.id)], a.child + [Null], a.sibling + [Null], a.parent + [Null]);
      var (a2, c, uc) := CopyInto(t.child, oe, a1);
      CopyIntoDistinct(t.child, oe, a1);
      var a3 := a2.(child := a2.child[n := c]);
      CopyIntoDistinct(t.sibling, oe, a3);
      JoinDistinct(n, uc, CopyInto(t.sibling, oe, a3).2, |a2.elt|);
    }
  }

  /** A link of a node the tree does not reach does not matter to it. */
  lemma RepSetOutside(u: Tree, x: int, c: seq<int>, s: seq<int>, n: int, v: int, w: int)
    requires Rep(u, x, c, s) && n !in Ids(u) && 0 <= n < |c| && n < |s|
    ensures Rep(u, x, c[n := v], s[n := w])
  {
    RepFrame(u, x, c, s, c[n := v], s[n := w]);
  }

  /** Cells added at the end of the arena do not matter to a tree. */
  lemma RepPrefix(u: Tree, x: int, c: seq<int>, s: seq<int>, c': seq<int>, s': seq<int>)
    requires Rep(u, x, c, s) && c <= c' && s <= s'
    ensures Rep(u, x, c', s')
  {
    PointsInside(u, x, c, s);
    RepFrame(u, x, c, s, c', s');
  }

  /** The copy's first node reaches the copy in the new arena. */
  lemma {:induction false} CopyIntoRep(t: Tree, oe: seq<int>, a: Cells)
    requires Sized(a)
    ensures Rep(CopyInto(t, oe, a).2, CopyInto(t, oe, a).1, CopyInto(t, oe, a).0.child, CopyInto(t, oe, a).0.sibling)
  {
    if t.Node? {
      var n := |a.elt|;
      var a1 := Cells(a.elt + [Val(oe, t.id)], a.child + [Null], a.sibling + [Null], a.parent + [Null]);
      var (a2, c, uc) := CopyInto(t.child, oe, a1);
      CopyIntoRep(t.child, oe, a1);
      var a3 := a2.(child := a2.child[n := c]);
      var (a4, s, us) := CopyInto(t.sibling, oe, a3);
      CopyIntoRep(t.sibling, oe, a3);
      CopyIntoGrown(t.sibling, oe, a3);
      var a7 := CopyInto(t, oe, a).0;
      assert a7.child == a4.child && a7.sibling == a4.sibling[n := s];
      assert a2.sibling[n := a2.sibling[n]] == a2.sibling;
      RepSetOutside(uc, c, a2.child, a2.sibling, n, c, a2.sibling[n]);
      RepPrefix(uc, c, a3.child, a3.sibling, a4.child, a4.sibling);
      assert a4.child[n := a4.child[n]] == a4.child;
      RepSetOutside(uc, c, a4.child, a4.sibling, n, a4.child[n], s);
      RepSetOutside(us, s, a4.child, a4.sibling, n, a4.child[n], s);
      assert a7.child[n] == a3.child[n];
    }
  }

  /** The copy has the shape of the original, with the same elements. */
  lemma {:induction false} CopyIntoCopied(t: Tree, oe: seq<int>, a: Cells)
    requires Sized(a)
    ensures Copied(t, oe, CopyInto(t, oe, a).2, CopyInto(t, oe, a).0.elt)
  {
    if t.Node? {
      var n := |a.elt|;
      var a1 := Cells(a.elt + [Val(oe, t.id)], a.child + [Null], a.sibling + [Null], a.parent + [Null]);
      var (a2, c, uc) := CopyInto(t.child, oe, a1);
      CopyIntoCopied(t.child, oe, a1);
      CopyIntoGrown(t.child, oe, a1);
      var a3 := a2.(child := a2.child[n := c]);
      var (a4, s, us) := CopyInto(t.sibling, oe, a3);
      CopyIntoCopied(t.sibling, oe, a3);
      CopyIntoGrown(t.sibling, oe, a3);
      var e := CopyInto(t, oe, a).0.elt;
      assert e == a4.elt;
      assert e[n] == a1.elt[n];
      CopiedFrame(t.child, oe, uc, a2.elt, e);
    }
  }

  /** The parent links of the copy are those CopyParents describes. */
  lemma {:induction false} CopyIntoParents(t: Tree, oe: seq<int>, a: Cells)
    requires Sized(a)
    ensures CopyParents(CopyInto(t, oe, a).2, CopyInto(t, oe, a).0.parent)
  {
    if t.Node? {
      var n := |a.elt|;
      var a1 := Cells(a.elt + [Val(oe, t.id)], a.child + [Null], a.sibling + [Null], a.parent + [Null]);
      var (a2, c, uc) := CopyInto(t.child, oe, a1);
      CopyIntoParents(t.child, oe, a1);
      CopyIntoGrown(t.child, oe, a1);
      CopyIntoDistinct(t.child, oe, a1);
      var a3 := a2.(child := a2.child[n := c]);
      var (a4, s, us) := CopyInto(t.sibling, oe, a3);
      CopyIntoParents(t.sibling, oe, a3);
      CopyIntoGrown(t.sibling, oe, a3);
      CopyIntoDistinct(t.sibling, oe, a3);
      var a5 := a4.(sibling := a4.sibling[n := s]);
      CopyParentLinksAt(a5, n, c, s);
      var p := CopyParentLinks(a5, n, c, s).parent;
      assert a5.parent[n] == a1.parent[n];
      CopyParentsFrame(uc, a2.parent, p);
      CopyParentsFrame(us, a4.parent, p);
      assert CopyParents(Node(n, uc, us), p);
    }
  }

  /** Copying a tree into an empty arena yields a tree of fresh nodes that
      holds the same elements in the same shape, so single-tree shape, heap
      order and the node count carry over. */
  lemma CopyIntoProps(t: Tree, oe: seq<int>, a: Cells, r: int, u: Tree)
    requires (a, r, u) == CopyInto(t, oe, Cells([], [], [], []))
    ensures Rep(u, r, a.child, a.sibling) && Distinct(u) && CopyParents(u, a.parent)
    ensures Copied(t, oe, u, a.elt)
    ensures Elems(u, a.elt) == Elems(t, oe) && Count(u) == Count(t)
    ensures (u.Nil? || u.sibling.Nil?) <==> (t.Nil? || t.sibling.Nil?)
    ensures HeapOrdered(u, a.elt) <==> HeapOrdered(t, oe)
  {
    var e := Cells([], [], [], []);
    CopyIntoRep(t, oe, e);
    CopyIntoDistinct(t, oe, e);
    CopyIntoParents(t, oe, e);
    CopyIntoCopied(t, oe, e);
    CopiedProps(t, oe, u, a.elt);
  }
}
