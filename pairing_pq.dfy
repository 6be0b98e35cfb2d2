/** The pairing heap (PairingPQ.hpp) with TYPE = int and compare =
    std::less, so the root holds the largest element. Nodes live in an
    arena: node `i` has element `elt[i]` and links `child[i]`, `sibling[i]`
    and `parent[i]`, with -1 for nullptr. The ghost `tree` is what the root
    reaches (see PairingTrees). */
module PairingHeap {
  import opened PairingTrees

  /** std::size_t counts modulo 2^64. */
  const SIZE_WRAP: nat := 0x1_0000_0000_0000_0000

  /** ++pq_size */
  function Inc(n: nat): (r: nat)
    requires n < SIZE_WRAP
    ensures r < SIZE_WRAP && (n + 1 < SIZE_WRAP ==> r == n + 1) && (n + 1 == SIZE_WRAP ==> r == 0)
  {
    (n + 1) % SIZE_WRAP
  }

  /** --pq_size */
  function Dec(n: nat): (r: nat)
    requires n < SIZE_WRAP
    ensures r < SIZE_WRAP && (n > 0 ==> r == n - 1) && (n == 0 ==> r == SIZE_WRAP - 1)
  {
    if n == 0 then SIZE_WRAP - 1 else n - 1
  }

  /** Counting i + 1 pushes from i pushes, modulo 2^64. */
  lemma IncMod(i: nat)
    ensures Inc(i % SIZE_WRAP) == (i + 1) % SIZE_WRAP
  {
    var q, m := i / SIZE_WRAP, i % SIZE_WRAP;
    assert i == q * SIZE_WRAP + m;
    if m + 1 < SIZE_WRAP {
      assert i + 1 == q * SIZE_WRAP + (m + 1);
    } else {
      assert i + 1 == (q + 1) * SIZE_WRAP;
    }
  }

  /** One more element of a range counted into its multiset. */
  lemma PrefixSnoc(s: seq<int>, i: nat)
    requires i < |s|
    ensures multiset(s[..i + 1]) == multiset(s[..i]) + multiset{s[i]}
  {
    assert s[..i + 1] == s[..i] + [s[i]];
  }

  class PairingPQ {
    var elt: seq<int>
    var child: seq<int>
    var sibling: seq<int>
    var parent: seq<int>
    /** root_ptr */
    var root: int
    /** pq_size */
    var pqSize: nat
    /** What `root` reaches through the child and sibling links. */
    ghost var tree: Tree

    ghost predicate Arena()
      reads this
    {
      |child| == |elt| && |sibling| == |elt| && |parent| == |elt|
    }

    /** The links from the root form a tree, which `tree` describes. */
    ghost predicate Valid()
      reads this
    {
      Arena() && Rep(tree, root, child, sibling) && Distinct(tree) && pqSize < SIZE_WRAP
    }

    /** The root has no sibling: the heap is one tree. */
    ghost predicate SingleTree()
      reads this
    {
      tree.Nil? || tree.sibling.Nil?
    }

    /** The pairing-heap invariant: no node is less than a node below it. */
    ghost predicate Ordered()
      reads this
    {
      HeapOrdered(tree, elt)
    }

    /** pq_size counts the nodes the root reaches. */
    ghost predicate Counted()
      reads this
    {
      pqSize == Count(tree)
    }

    /** Every parent link leads to the node owning the child list it is on,
        and the root has no parent. */
    ghost predicate Linked()
      reads this
    {
      Owned(tree, Null, parent)
    }

    /** The parent link of `node` names the node whose child list holds it
        (null for the root). This is all of the parent links that
        updateElt's splice reads. */
    ghost predicate ParentKnown(node: int)
      reads this
    {
      node in Ids(tree) && 0 <= node < |parent| && parent[node] == OwnerIn(tree, Null, node)
    }

    ghost function Contents(): multiset<int>
      reads this
    {
      Elems(tree, elt)
    }

    /** The default constructor: an empty heap. */
    constructor ()
      ensures Valid() && SingleTree() && Ordered() && Counted() && Linked()
      ensures tree == Nil && root == Null && pqSize == 0 && elt == [] && Contents() == multiset{}
    {
      elt, child, sibling, parent := [], [], [], [];
      root, pqSize := Null, 0;
      tree := Nil;
    }

    /** meld(a, b): the node that compares not less becomes the parent of the
        other, which is pushed on the front of the winner's child list and
        records the winner as its parent. */
    method Meld(a: int, b: int, ghost ta: Tree, ghost tb: Tree) returns (r: int)
      requires Arena() && ta.Node? && tb.Node?
      requires Rep(ta, a, child, sibling) && Rep(tb, b, child, sibling)
      requires Distinct(ta) && Distinct(tb) && Ids(ta) !! Ids(tb)
      modifies this
      ensures Arena() && elt == old(elt) && root == old(root) && pqSize == old(pqSize) && tree == old(tree)
      ensures elt[a] < elt[b] ==>
        r == b && child == old(child)[b := a] && sibling == old(sibling)[a := old(child)[b]] &&
        parent == old(parent)[a := b]
      ensures !(elt[a] < elt[b]) ==>
        r == a && child == old(child)[a := b] && sibling == old(sibling)[b := old(child)[a]] &&
        parent == old(parent)[b := a]
      ensures Rep(Melded(ta, tb, elt), r, child, sibling) && Distinct(Melded(ta, tb, elt))
      ensures ta.sibling == Nil && tb.sibling == Nil && Owned(ta, Null, old(parent)) && Owned(tb, Null, old(parent)) ==>
        Owned(Melded(ta, tb, elt), Null, parent)
    {
      PointsInside(ta, a, child, sibling);
      PointsInside(tb, b, child, sibling);
      ghost var c0, s0 := child, sibling;
      if elt[a] < elt[b] {
        sibling := sibling[a := child[b]];
        child := child[b := a];
        parent := parent[a := b];
        r := b;
      } else {
        sibling := sibling[b := child[a]];
        child := child[a := b];
        parent := parent[b := a];
        r := a;
      }
      MeldRep(ta, tb, elt, c0, s0, child, sibling);
      MeldKeepsOrder(ta, tb, elt);
      if ta.sibling == Nil && tb.sibling == Nil && Owned(ta, Null, old(parent)) && Owned(tb, Null, old(parent)) {
        MeldOwned(ta, tb, elt, old(parent), parent);
      }
    }

    /** new Node(val): a node with null links at the end of the arena. */
    method NewNode(val: int) returns (node: int)
      requires Valid()
      modifies this
      ensures node == old(|elt|) && elt == old(elt) + [val]
      ensures child == old(child) + [Null] && sibling == old(sibling) + [Null] && parent == old(parent) + [Null]
      ensures root == old(root) && pqSize == old(pqSize) && tree == old(tree) && node !in Ids(tree)
      ensures Valid() && Contents() == old(Contents()) && Ordered() == old(Ordered()) && Linked() == old(Linked())
      ensures Owned(Node(node, Nil, Nil), Null, parent)
    {
      PointsInside(tree, root, child, sibling);
      node := |elt|;
      elt := elt + [val];
      child := child + [Null];
      sibling := sibling + [Null];
      parent := parent + [Null];
      RepFrame(tree, root, old(child), old(sibling), child, sibling);
      ValsFrame(tree, old(elt), elt);
      if old(Linked()) {
        OwnedFrame(tree, Null, old(parent), parent);
      }
      if Linked() {
        OwnedFrame(tree, Null, parent, old(parent));
      }
    }

    /** The second step of addNode: the new node `node` is melded with the
        root, the winner becoming the root, or becomes the root of an empty
        heap. */
    method Attach(node: int)
      requires Valid() && |elt| > 0 && node == |elt| - 1 && node !in Ids(tree)
      requires child[node] == Null && sibling[node] == Null && parent[node] == Null
      modifies this
      ensures Valid() && elt == old(elt) && pqSize == old(pqSize)
      ensures tree == Pushed(old(tree), node, elt)
      ensures old(SingleTree() && Linked()) ==> Linked()
      ensures old(SingleTree()) ==> SingleTree() && ParentKnown(node) && KeepsKnown(old(tree), old(parent), tree, parent)
    {
      ghost var t0, linked := tree, SingleTree() && Linked();
      PointsInside(tree, root, child, sibling);
      assert Owned(Nil, node, parent) && Owned(Nil, Null, parent) && 0 <= node < |parent|;
      assert Owned(Node(node, Nil, Nil), Null, parent);
      if root != Null {
        root := Meld(node, root, Node(node, Nil, Nil), t0);
      } else {
        root := node;
      }
      tree := Pushed(t0, node, elt);
      if t0.Nil? || t0.sibling == Nil {
        PushedKnown(t0, node, elt, old(parent), parent);
      }
      assert linked ==> Linked();
    }

    /** addNode: a new node holding `val` is melded with the root (or
        becomes the root of an empty heap); pq_size goes up by one. */
    method AddNode(val: int) returns (node: int)
      requires Valid()
      modifies this
      ensures Valid() && node == old(|elt|) && elt == old(elt) + [val] && pqSize == Inc(old(pqSize))
      ensures tree == Pushed(old(tree), node, elt)
      ensures old(SingleTree()) ==> Contents() == old(Contents()) + multiset{val} && Count(tree) == old(Count(tree)) + 1
      ensures old(SingleTree() && Ordered()) ==> Ordered()
      ensures old(SingleTree() && Linked()) ==> Linked()
      ensures old(SingleTree()) ==> SingleTree() && ParentKnown(node)
      ensures old(SingleTree()) ==> KeepsKnown(old(tree), old(parent), tree, parent)
      ensures old(SingleTree() && Counted()) && old(pqSize) + 1 < SIZE_WRAP ==> Counted()
    {
      ghost var t0, c0, p0 := tree, Contents(), parent;
      node := NewNode(val);
      Attach(node);
      if t0.Nil? || t0.sibling == Nil {
        assert Contents() == c0 + multiset{val} && (HeapOrdered(t0, elt) ==> Ordered()) by {
          PushedProps(t0, node, elt);
          assert Elems(t0, elt) == c0 && Val(elt, node) == val;
        }
        assert Count(tree) == Count(t0) + 1 by {
          PushedCount(t0, node, elt);
        }
        KeepsKnownPrefix(t0, p0, [Null], tree, parent);
      }
      pqSize := Inc(pqSize);
    }

    /** push: addNode without the handle. */
    method Push(val: int)
      requires Valid()
      modifies this
      ensures Valid() && elt == old(elt) + [val] && pqSize == Inc(old(pqSize))
      ensures tree == Pushed(old(tree), old(|elt|), elt)
      ensures old(SingleTree()) ==> Contents() == old(Contents()) + multiset{val} && Count(tree) == old(Count(tree)) + 1
      ensures old(SingleTree() && Ordered()) ==> Ordered()
      ensures old(SingleTree() && Linked()) ==> Linked()
      ensures old(SingleTree()) ==> SingleTree() && KeepsKnown(old(tree), old(parent), tree, parent)
      ensures old(SingleTree() && Counted()) && old(pqSize) + 1 < SIZE_WRAP ==> Counted()
    {
      var _ := AddNode(val);
    }

    /** The trees of the worklist: node ws[k] heads the single tree ts[k],
        and no two of them share a node. */
    ghost predicate Worklist(ws: seq<int>, ts: seq<Tree>)
      reads this
    {
      Roots(ts) && Disjoint(ts) && Heads(ts, ws, child, sibling)
    }

    /** The first loop of pop: walk the root's child list, clearing each
        node's parent and sibling links and queueing it. The queue ends up
        holding the trees of the root's child list. */
    method CollectChildren(ghost S: set<int>) returns (ws: seq<int>)
      requires Valid() && root != Null
      modifies this
      ensures Arena() && elt == old(elt) && child == old(child) && root == old(root) && pqSize == old(pqSize) && tree == old(tree)
      ensures ws == SpineIds(tree.child) && Worklist(ws, Spine(tree.child))
      ensures old(Linked()) ==> AllOwned(Spine(tree.child), parent)
      ensures old(KnownIn(tree.child, root, parent, S)) ==> ForestKnown(Spine(tree.child), parent, S)
    {
      PointsInside(tree, root, child, sibling);
      ghost var l, s0, p0 := tree.child, sibling, parent;
      ghost var ids := SpineIds(l);
      SpineLinks(l, child[root], child, sibling);
      var current := child[root];
      ghost var rest, i := l, 0;
      ws := [];
      while current != Null
        invariant Arena() && elt == old(elt) && child == old(child) && root == old(root) && pqSize == old(pqSize) && tree == old(tree)
        invariant 0 <= i <= |ids| && ws == ids[..i]
        invariant Rep(rest, current, child, s0) && SpineIds(rest) == ids[i..]
        invariant forall j :: 0 <= j < |s0| ==> sibling[j] == (if j in ids[..i] then Null else s0[j])
        invariant forall j :: 0 <= j < |p0| ==> parent[j] == (if j in ids[..i] then Null else p0[j])
        decreases |ids| - i
      {
        assert current == ids[i];
        assert current !in ids[..i];
        var next := sibling[current];
        parent := parent[current := Null];
        sibling := sibling[current := Null];
        ws := ws + [current];
        assert ids[..i + 1] == ids[..i] + [current];
        rest, i := rest.sibling, i + 1;
        current := next;
      }
      assert ids[..i] == ids;
      SpineCut(l, child[root], child, s0, sibling, root, p0, parent, S);
    }

    /** The second loop of pop: meld the two front trees of the queue and
        queue the result, until at most one tree is left. */
    method MeldPairs(ws: seq<int>, ghost ts: seq<Tree>, ghost S: set<int>) returns (r: int, ghost t: Tree)
      requires Arena() && Worklist(ws, ts)
      modifies this
      ensures Arena() && elt == old(elt) && root == old(root) && pqSize == old(pqSize) && tree == old(tree)
      ensures t == Reduce(ts, elt) && Rep(t, r, child, sibling)
      ensures old(AllOwned(ts, parent)) ==> Owned(t, Null, parent)
      ensures old(ForestKnown(ts, parent, S)) ==> KnownIn(t, Null, parent, S)
    {
      var melder := ws;
      ghost var forest := ts;
      ghost var linked, known := AllOwned(ts, parent), ForestKnown(ts, parent, S);
      while |melder| > 1
        invariant Arena() && elt == old(elt) && root == old(root) && pqSize == old(pqSize) && tree == old(tree)
        invariant Worklist(melder, forest) && Reduce(forest, elt) == Reduce(ts, elt)
        invariant linked ==> AllOwned(forest, parent)
        invariant known ==> ForestKnown(forest, parent, S)
        decreases |melder|
      {
        ghost var a, b, rest := forest[0], forest[1], forest[2..];
        var first, second := melder[0], melder[1];
        ghost var c0, s0, p0 := child, sibling, parent;
        assert Ids(a) !! Ids(b);
        forall k | 0 <= k < |rest| ensures first !in Ids(rest[k]) && second !in Ids(rest[k]) {
          assert rest[k] == forest[k + 2];
          assert Ids(a) !! Ids(forest[k + 2]) && Ids(b) !! Ids(forest[k + 2]);
        }
        PointsInside(a, first, child, sibling);
        PointsInside(b, second, child, sibling);
        var m := Meld(first, second, a, b);
        if elt[first] < elt[second] {
          ForestFrame(rest, melder[2..], c0, s0, second, first, first, c0[second]);
          if linked {
            ForestOwnedFrame(rest, p0, first, second);
          }
        } else {
          ForestFrame(rest, melder[2..], c0, s0, first, second, second, c0[first]);
          if linked {
            ForestOwnedFrame(rest, p0, second, first);
          }
        }
        assert known ==> ForestKnown(rest + [Melded(a, b, elt)], parent, S) by {
          if known {
            assert forest[0].id == first && forest[1].id == second;
            ReduceStepKnown(forest, elt, p0, parent, S);
          }
        }
        ReduceStepDisjoint(forest, elt);
        HeadsSnoc(rest, melder[2..], Melded(a, b, elt), m, child, sibling);
        if linked {
          AllOwnedSnoc(rest, Melded(a, b, elt), parent);
        }
        melder := melder[2..] + [m];
        forest := rest + [Melded(a, b, elt)];
      }
      r := if melder == [] then Null else melder[0];
      t := if forest == [] then Nil else forest[0];
      if known {
        ForestKnownLast(forest, parent, S);
      }
    }

    /** pop: the root's children are cut loose and melded pairwise, front to
        back through a FIFO queue, and the last tree standing is the new
        heap; on an empty heap nothing happens. pq_size goes down by one. */
    method Pop()
      requires Valid()
      modifies this
      ensures Valid() && elt == old(elt)
      ensures old(root) == Null ==> unchanged(this)
      ensures old(root) != Null ==> tree == Reduce(Spine(old(tree).child), elt) && pqSize == Dec(old(pqSize))
      ensures old(root != Null && SingleTree()) ==> Contents() == old(Contents()) - multiset{old(elt[root])}
      ensures old(SingleTree()) ==> SingleTree()
      ensures old(SingleTree() && Ordered()) ==> Ordered()
      ensures old(SingleTree() && Counted()) ==> Counted()
      ensures old(Linked()) ==> Linked()
      ensures old(SingleTree()) ==> KeepsKnown(old(tree), old(parent), tree, parent)
    {
      if root == Null {
        return;
      }
      ghost var t0, p0, single := tree, parent, SingleTree();
      ghost var S := KnownSet(t0.child, root, p0);
      var ws := CollectChildren(S);
      ghost var ts := Spine(t0.child);
      var r;
      ghost var t;
      r, t := MeldPairs(ws, ts, S);
      PopShape(t0, elt);
      root, tree, pqSize := r, t, Dec(pqSize);
      if single {
        PopElems(t0, elt);
        PopCount(t0, elt);
        PopKnown(t0, elt, p0, parent);
      }
    }

    /** The unlinking part of updateElt: `node` is taken off its parent's
        child list (its parent's child link, or the sibling link of the node
        before it, now leads to its sibling), and its own sibling and parent
        links are cleared. The node then heads a single tree holding its old
        child list. */
    method Unlink(node: int) returns (ghost u: Tree)
      requires Valid() && SingleTree() && ParentKnown(node) && node != root
      modifies this
      ensures Arena() && elt == old(elt) && root == old(root) && pqSize == old(pqSize)
      ensures tree == Detach(old(tree), node) && u == Node(node, Sub(old(tree), node).child, Nil)
      ensures Rep(tree, root, child, sibling) && IsRoot(u, node, child, sibling)
      ensures parent == old(parent)[node := Null]
      ensures old(Linked()) ==> Owned(tree, Null, parent) && Owned(u, Null, parent)
    {
      ghost var t0, c0, s0, p0, linked := tree, child, sibling, parent, Linked();
      PointsInside(tree, root, child, sibling);
      OwnerInList(tree, Null, node);
      assert SpineIds(tree) == [root];
      var p := parent[node];
      ghost var w: int, viaChild: bool;
      if p != Null {
        ghost var l := Sub(tree, p).child;
        SubProps(tree, p, root, child, sibling);
        if child[p] == node {
          child := child[p := sibling[node]];
          w, viaChild := p, true;
        } else {
          var before := FindBefore(p, node, l);
          sibling := sibling[before := sibling[node]];
          w, viaChild := before, false;
        }
      } else {
        assert false;
      }
      UnlinkRep(t0, root, c0, s0, child, sibling, w, viaChild, node);
      sibling := sibling[node := Null];
      parent := parent[node := Null];
      tree := Detach(t0, node);
      u := Node(node, Sub(t0, node).child, Nil);
      if linked {
        UnlinkOwned(t0, node, p0);
      }
    }

    /** The loop of updateElt that walks the parent's child list for the
        node just before `node`. */
    method FindBefore(p: int, node: int, ghost l: Tree) returns (before: int)
      requires 0 <= p < |child| && Rep(l, child[p], child, sibling) && Distinct(l)
      requires node in SpineIds(l) && child[p] != node
      ensures before in Ids(l) && 0 <= before < |sibling| && sibling[before] == node
    {
      SpineLinks(l, child[p], child, sibling);
      ghost var ids := SpineIds(l);
      ghost var m :| 0 <= m < |ids| && ids[m] == node;
      before := child[p];
      ghost var k := 0;
      while sibling[before] != node
        invariant 0 <= k < m && before == ids[k]
        decreases m - k
      {
        before := sibling[before];
        k := k + 1;
      }
    }

    /** updateElt as written: the branch runs only when the new value is
        LESS than the old one, and the result of the final meld is dropped,
        so root_ptr keeps its old value even when `node` wins the meld.
        Unless it runs, nothing changes. Meld(root, root) would tie the
        root to itself, so `node` may not be the root when the branch is
        taken; the splice then reads `node`'s parent link. */
    method UpdateElt(node: int, newValue: int)
      requires Valid() && SingleTree() && node in Ids(tree) && 0 <= node < |elt|
      requires newValue < elt[node] ==> node != root && ParentKnown(node)
      modifies this
      ensures Valid() && root == old(root) && pqSize == old(pqSize)
      ensures !(newValue < old(elt[node])) ==> unchanged(this)
      ensures newValue < old(elt[node]) ==> elt == old(elt)[node := newValue]
      ensures newValue < old(elt[node]) ==>
        tree == (if elt[root] < newValue then Relinked(old(tree), node, elt).child else Relinked(old(tree), node, elt))
      ensures newValue < old(elt[node]) && old(Ordered()) ==>
        tree == Relinked(old(tree), node, elt) && SingleTree() &&
        Contents() == old(Contents()) - multiset{old(elt[node])} + multiset{newValue}
      ensures newValue < old(elt[node]) && old(Ordered() && Linked()) ==> Linked()
      ensures newValue < old(elt[node]) && old(Ordered()) ==> KeepsKnown(old(tree), old(parent), tree, parent)
    {
      if newValue < elt[node] {
        ghost var t0, e0, p0, ordered := tree, elt, parent, Ordered();
        PointsInside(tree, root, child, sibling);
        elt := elt[node := newValue];
        ghost var u := Unlink(node);
        ghost var d := tree;
        CutIds(t0, node);
        assert d.sibling == Nil;
        var _ := Meld(root, node, d, u);
        tree := if elt[root] < elt[node] then Melded(d, u, elt).child else Melded(d, u, elt);
        if ordered {
          BoundedMember(t0.child, e0[root], e0, node);
          RelinkedElems(t0, node, e0, newValue);
          RelinkedKnown(t0, node, elt, p0, parent);
        }
      }
    }

    /** Cut `node` out and meld it back with the root, the meld's winner
        becoming the root. */
    method Relink(node: int)
      requires Valid() && SingleTree() && ParentKnown(node) && node != root
      modifies this
      ensures Valid() && SingleTree() && elt == old(elt) && pqSize == old(pqSize)
      ensures old(Linked()) ==> Linked()
      ensures tree == Relinked(old(tree), node, elt)
      ensures KeepsKnown(old(tree), old(parent), tree, parent)
    {
      ghost var t0, p0 := tree, parent;
      PointsInside(tree, root, child, sibling);
      ghost var u := Unlink(node);
      ghost var d := tree;
      CutIds(t0, node);
      assert d.sibling == Nil;
      root := Meld(root, node, d, u);
      tree := Melded(d, u, elt);
      RelinkedKnown(t0, node, elt, p0, parent);
    }

    /** updateElt as evidently intended: raise the node's element and, for
        a node below the root, cut it out and meld it back with the root,
        keeping the meld's result as the new root. */
    method UpdateEltFixed(node: int, newValue: int)
      requires Valid() && SingleTree() && node in Ids(tree) && 0 <= node < |elt|
      requires elt[node] < newValue && node != root ==> ParentKnown(node)
      modifies this
      ensures Valid() && SingleTree() && pqSize == old(pqSize)
      ensures old(Linked()) ==> Linked()
      ensures KeepsKnown(old(tree), old(parent), tree, parent)
      ensures !(old(elt[node]) < newValue) ==> unchanged(this)
      ensures old(elt[node]) < newValue ==> elt == old(elt)[node := newValue] && Ids(tree) == old(Ids(tree))
      ensures old(elt[node]) < newValue ==> Contents() == old(Contents()) - multiset{old(elt[node])} + multiset{newValue}
      ensures old(elt[node]) < newValue && node != old(root) ==> tree == Relinked(old(tree), node, elt)
      ensures old(elt[node]) < newValue && node == old(root) ==>
        root == old(root) && tree == old(tree) && child == old(child) && sibling == old(sibling) && parent == old(parent)
      ensures old(Ordered()) ==> Ordered()
      ensures old(Counted()) ==> Counted()
    {
      if elt[node] < newValue {
        ghost var t0, e0, ordered, counted := tree, elt, Ordered(), Counted();
        elt := elt[node := newValue];
        ghost var e1 := elt;
        if node != root {
          ghost var nt := Relinked(t0, node, e1);
          RelinkedIds(t0, node, e1);
          RelinkedElems(t0, node, e0, newValue);
          assert ordered ==> HeapOrdered(nt, e1) by {
            if ordered {
              RelinkedOrder(t0, node, e0, newValue);
            }
          }
          assert Count(nt) == Count(t0) by {
            RelinkedCount(t0, node, e1);
          }
          Relink(node);
        } else {
          RaiseRootElems(t0, e0, newValue);
          if ordered {
            RaiseRootOrder(t0, e0, newValue);
          }
        }
      }
    }

    /** copyNode: a preorder deep copy of what node `x` of `other` reaches,
        appended to this arena. The copy of a child list's first node
        records its owner as parent; a later node of a list records the
        parent field of the node before it, which is still null then. */
    method CopyNode(other: PairingPQ, x: int, ghost t: Tree) returns (r: int, ghost u: Tree)
      requires other != this && Arena() && other.Arena() && Rep(t, x, other.child, other.sibling)
      modifies this`elt, this`child, this`sibling, this`parent
      decreases t
      ensures (Cells(elt, child, sibling, parent), r, u) == CopyInto(t, other.elt, old(Cells(elt, child, sibling, parent)))
    {
      if x == Null {
        return Null, Nil;
      }
      var n := |elt|;
      elt, child, sibling, parent := elt + [other.elt[x]], child + [Null], sibling + [Null], parent + [Null];
      var c;
      ghost var uc;
      c, uc := CopyNode(other, other.child[x], t.child);
      child := child[n := c];
      ghost var a3 := Cells(elt, child, sibling, parent);
      var s;
      ghost var us;
      s, us := CopyNode(other, other.sibling[x], t.sibling);
      sibling := sibling[n := s];
      ghost var a5 := Cells(elt, child, sibling, parent);
      if c != Null {
        parent := parent[c := n];
      }
      if s != Null {
        parent := parent[s := parent[n]];
      }
      assert Cells(elt, child, sibling, parent) == CopyParentLinks(a5, n, c, s);
      r, u := n, Node(n, uc, us);
    }

    /** The range constructor: push each element in turn. */
    constructor FromSeq(s: seq<int>)
      ensures Valid() && SingleTree() && Ordered() && Linked()
      ensures Contents() == multiset(s) && Count(tree) == |s| && pqSize == |s| % SIZE_WRAP
    {
      elt, child, sibling, parent := [], [], [], [];
      root, pqSize := Null, 0;
      tree := Nil;
      new;
      var i := 0;
      while i < |s|
        invariant i <= |s|
        invariant Valid() && SingleTree() && Ordered() && Linked()
        invariant Contents() == multiset(s[..i]) && Count(tree) == i && pqSize == i % SIZE_WRAP
      {
        ghost var c0, n0, q0 := Contents(), Count(tree), pqSize;
        Push(s[i]);
        assert Contents() == c0 + multiset{s[i]} && Count(tree) == n0 + 1 && pqSize == Inc(q0);
        PrefixSnoc(s, i);
        IncMod(i);
        i := i + 1;
      }
      assert s[..i] == s;
    }

    /** The copy constructor as written: the nodes are copied but pq_size
        is left at 0, so a copy of a non-empty heap reports size 0. */
    constructor Copy(other: PairingPQ)
      requires other.Valid()
      ensures Valid() && pqSize == 0
      ensures Contents() == other.Contents() && Count(tree) == Count(other.tree)
      ensures SingleTree() <==> other.SingleTree()
      ensures Ordered() <==> other.Ordered()
      ensures Copied(other.tree, other.elt, tree, elt) && CopyParents(tree, parent)
    {
      elt, child, sibling, parent := [], [], [], [];
      root, pqSize := Null, 0;
      tree := Nil;
      new;
      if other.root != Null {
        root, tree := CopyNode(other, other.root, other.tree);
      }
      CopyIntoProps(other.tree, other.elt, Cells(elt, child, sibling, parent), root, tree);
    }

    /** The copy constructor with pq_size copied from the original. */
    constructor CopyFixed(other: PairingPQ)
      requires other.Valid()
      ensures Valid() && pqSize == other.pqSize
      ensures Contents() == other.Contents() && Count(tree) == Count(other.tree)
      ensures SingleTree() <==> other.SingleTree()
      ensures Ordered() <==> other.Ordered()
      ensures other.Counted() ==> Counted()
      ensures Copied(other.tree, other.elt, tree, elt) && CopyParents(tree, parent)
    {
      elt, child, sibling, parent := [], [], [], [];
      root, pqSize := Null, other.pqSize;
      tree := Nil;
      new;
      if other.root != Null {
        root, tree := CopyNode(other, other.root, other.tree);
      }
      CopyIntoProps(other.tree, other.elt, Cells(elt, child, sibling, parent), root, tree);
    }

    /** operator=: unless assigning to itself, release the current nodes
        (the arena is emptied), take rhs's pq_size and copy rhs's nodes. */
    method Assign(rhs: PairingPQ)
      requires Valid() && rhs.Valid()
      modifies this
      ensures Valid() && pqSize == old(rhs.pqSize)
      ensures rhs == this ==> unchanged(this)
      ensures Contents() == old(rhs.Contents()) && Count(tree) == old(Count(rhs.tree))
      ensures SingleTree() <==> old(rhs.SingleTree())
      ensures Ordered() <==> old(rhs.Ordered())
      ensures old(rhs.Counted()) ==> Counted()
      ensures rhs != this ==> Copied(old(rhs.tree), old(rhs.elt), tree, elt) && CopyParents(tree, parent)
    {
      if rhs != this {
        elt, child, sibling, parent := [], [], [], [];
        pqSize := rhs.pqSize;
        if rhs.root != Null {
          root, tree := CopyNode(rhs, rhs.root, rhs.tree);
        } else {
          root, tree := Null, Nil;
        }
        CopyIntoProps(rhs.tree, rhs.elt, Cells(elt, child, sibling, parent), root, tree);
      }
    }

    /** top: the root's element. On an empty heap the source dereferences
        nullptr. In a heap-ordered single tree no element is greater. */
    function Top(): (r: int)
      reads this
      requires Valid() && root != Null
      ensures r in Contents()
      ensures SingleTree() && Ordered() ==> forall v :: v in Contents() ==> v <= r
    {
      assert tree.Node? && Elems(tree, elt) == multiset{Val(elt, root)} + Elems(tree.child, elt) + Elems(tree.sibling, elt);
      TopIsMax(tree, elt);
      elt[root]
    }

    /** size: pq_size, which is the number of nodes when counted. */
    function Size(): (n: nat)
      reads this
      ensures Counted() ==> n == Count(tree)
    {
      pqSize
    }

    /** empty: pq_size == 0, which for a counted heap means no root. */
    function Empty(): (r: bool)
      reads this
      requires Valid()
      ensures Counted() ==> (r <==> root == Null) && (r <==> Contents() == multiset{})
    {
      pqSize == 0
    }
  }

  /** updateElt as written ignores an update that meets its precondition:
      raising the only element from 10 to 20 leaves 10 on top. */
  method RaiseIgnored() returns (pq: PairingPQ, h: int)
    ensures pq.Valid() && pq.root != Null && 0 <= h < |pq.elt|
    ensures pq.Contents() == multiset{10} && pq.Top() == 10
  {
    pq := new PairingPQ();
    h := pq.AddNode(10);
    pq.UpdateElt(h, 20);
  }

  /** The corrected updateElt applies the same update. */
  method RaiseApplied() returns (pq: PairingPQ, h: int)
    ensures pq.Valid() && pq.root != Null && 0 <= h < |pq.elt|
    ensures pq.Contents() == multiset{20} && pq.Top() == 20
  {
    pq := new PairingPQ();
    h := pq.AddNode(10);
    pq.UpdateEltFixed(h, 20);
  }

  /** The copy constructor as written: a copy of a one-element heap holds
      the element but reports size 0 and empty. */
  method CopyLosesSize() returns (pq: PairingPQ, copy: PairingPQ)
    ensures pq.Valid() && copy.Valid()
    ensures copy.Contents() == pq.Contents() == multiset{7}
    ensures pq.Size() == 1 && copy.Size() == 0 && copy.Empty()
  {
    pq := new PairingPQ();
    pq.Push(7);
    copy := new PairingPQ.Copy(pq);
  }

  /** The corrected copy constructor reports the original's size. */
  method CopyKeepsSize() returns (pq: PairingPQ, copy: PairingPQ)
    ensures pq.Valid() && copy.Valid()
    ensures copy.Contents() == pq.Contents() == multiset{7}
    ensures pq.Size() == 1 && copy.Size() == 1 && !copy.Empty()
  {
    pq := new PairingPQ();
    pq.Push(7);
    copy := new PairingPQ.CopyFixed(pq);
  }

  /** A handle that addNode returns can be raised with the corrected
      updateElt on any heap that is one heap-ordered tree, whatever its
      other parent links hold: the raised element replaces the added one. */
  method RaiseAdded(pq: PairingPQ, v: int, w: int) returns (h: int)
    requires pq.Valid() && pq.SingleTree() && pq.Ordered() && v < w
    modifies pq
    ensures pq.Valid() && pq.SingleTree() && pq.Ordered() && pq.root != Null
    ensures pq.Contents() == old(pq.Contents()) + multiset{w}
  {
    ghost var c0 := pq.Contents();
    h := pq.AddNode(v);
    assert pq.Contents() == c0 + multiset{v} && pq.elt[h] == v;
    pq.UpdateEltFixed(h, w);
    assert pq.Contents() == c0 + multiset{v} - multiset{v} + multiset{w} && h in Ids(pq.tree);
  }

  /** Such a heap may be a copy, whose parent links are not all correct
      once a child list holds two nodes: the copy then holds the original's
      elements and the raised one, still in heap order. */
  method RaiseInCopy(pq: PairingPQ, v: int, w: int) returns (copy: PairingPQ, h: int)
    requires pq.Valid() && pq.SingleTree() && pq.Ordered() && v < w
    ensures copy.Valid() && copy.SingleTree() && copy.Ordered() && copy.root != Null
    ensures copy.Contents() == pq.Contents() + multiset{w}
  {
    copy := new PairingPQ.Copy(pq);
    h := RaiseAdded(copy, v, w);
  }
}
