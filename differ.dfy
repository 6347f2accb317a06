/** What `diff` computes, as values: the old tree with its only-in-old children tagged Deleted,
    the new tree's only-in-new children spliced in and tagged Inserted, and the common children
    diffed recursively. */
module Differ {
  import opened JsonValue
  import opened Trees

  /** `left_diff`, `right_diff` and `intersection` of the two child key sets. */
  function OnlyInOld(o: Tree, n: Tree): set<Key> {
    o.children.Keys - n.children.Keys
  }

  function OnlyInNew(o: Tree, n: Tree): set<Key> {
    n.children.Keys - o.children.Keys
  }

  function InBoth(o: Tree, n: Tree): set<Key> {
    o.children.Keys * n.children.Keys
  }

  /** The first loop of `diff`: the children under `gone` retagged Deleted. */
  function MarkDeleted(o: Tree, gone: set<Key>): Tree {
    o.(children := map k | k in o.children :: if k in gone then Retag(o.children[k], Deleted) else o.children[k])
  }

  /** The second loop: the new tree's children under `added` spliced in and retagged Inserted. */
  function SpliceInserted(o: Tree, n: Tree, added: set<Key>): Tree
    requires added <= n.children.Keys
  {
    o.(children := o.children + map k | k in added :: Retag(n.children[k], Inserted))
  }

  /** The guard of the two early returns: not the root, and no children left. */
  predicate EarlyReturn(t: Tree) {
    !IsRoot(t.key) && t.children == map[]
  }

  /** The tree after the deletion and insertion steps, early returns included. */
  function Staged(o: Tree, n: Tree): Tree {
    var left, right := OnlyInOld(o, n), OnlyInNew(o, n);
    var d := if left != {} then MarkDeleted(o, left) else o;
    if left != {} && EarlyReturn(d) then d
    else if right != {} then SpliceInserted(d, n, right)
    else d
  }

  /** `diff(oldNode, newNode)`, following the source step by step. */
  function Diff(o: Tree, n: Tree): Tree
    decreases o
  {
    var left, right, both := OnlyInOld(o, n), OnlyInNew(o, n), InBoth(o, n);
    var s := Staged(o, n);
    if left != {} && EarlyReturn(s) then s
    else if right != {} && EarlyReturn(s) then s
    else if both != {} then
      s.(children := map k | k in s.children :: if k in both then Diff(o.children[k], n.children[k]) else s.children[k])
    else s
  }

  /** Neither early return can fire: deleting only retags, so children remain, and splicing adds
      children. */
  lemma EarlyReturnsUnreachable(o: Tree, n: Tree)
    ensures OnlyInOld(o, n) != {} ==> !EarlyReturn(MarkDeleted(o, OnlyInOld(o, n)))
    ensures OnlyInNew(o, n) != {} ==>
      !EarlyReturn(SpliceInserted(if OnlyInOld(o, n) != {} then MarkDeleted(o, OnlyInOld(o, n)) else o, n, OnlyInNew(o, n)))
    ensures (OnlyInOld(o, n) != {} || OnlyInNew(o, n) != {}) ==> !EarlyReturn(Staged(o, n))
  {
    if OnlyInOld(o, n) != {} {
      var k :| k in OnlyInOld(o, n);
      assert k in MarkDeleted(o, OnlyInOld(o, n)).children;
    }
    if OnlyInNew(o, n) != {} {
      var k :| k in OnlyInNew(o, n);
      var d := if OnlyInOld(o, n) != {} then MarkDeleted(o, OnlyInOld(o, n)) else o;
      assert k in SpliceInserted(d, n, OnlyInNew(o, n)).children;
    }
  }

  /** The tree after the deletion and insertion steps, without the early returns. */
  lemma StagedChildren(o: Tree, n: Tree)
    ensures Staged(o, n).key == o.key && Staged(o, n).kind == o.kind
    ensures Staged(o, n).children.Keys == o.children.Keys + n.children.Keys
    ensures forall k :: k in Staged(o, n).children ==>
      Staged(o, n).children[k] ==
        (if k in OnlyInOld(o, n) then Retag(o.children[k], Deleted)
         else if k in OnlyInNew(o, n) then Retag(n.children[k], Inserted)
         else o.children[k])
  {
    EarlyReturnsUnreachable(o, n);
    var left, right := OnlyInOld(o, n), OnlyInNew(o, n);
    var d := if left != {} then MarkDeleted(o, left) else o;
    assert d.children.Keys == o.children.Keys;
    assert forall k :: k in d.children ==> d.children[k] == if k in left then Retag(o.children[k], Deleted) else o.children[k];
    if right != {} {
      assert Staged(o, n) == SpliceInserted(d, n, right);
    } else {
      assert Staged(o, n) == d;
      assert forall k :: k in n.children ==> k in o.children || k in right;
    }
  }

  /** `diff` without its early returns, which cannot fire. */
  lemma DiffUnfold(o: Tree, n: Tree)
    ensures InBoth(o, n) == {} ==> Diff(o, n) == Staged(o, n)
    ensures InBoth(o, n) != {} ==> Diff(o, n) == Staged(o, n).(children := map k | k in Staged(o, n).children ::
      if k in InBoth(o, n) then Diff(o.children[k], n.children[k]) else Staged(o, n).children[k])
  {
    EarlyReturnsUnreachable(o, n);
  }

  /** The result of `diff`: the old node's key and tag, the union of both child key sets, the
      only-in-old subtrees tagged Deleted, the only-in-new subtrees tagged Inserted, and the
      common children diffed. */
  lemma DiffChildren(o: Tree, n: Tree)
    ensures Diff(o, n).key == o.key && Diff(o, n).kind == o.kind
    ensures Diff(o, n).children.Keys == o.children.Keys + n.children.Keys
    ensures forall k :: k in o.children && k !in n.children ==> Diff(o, n).children[k] == Retag(o.children[k], Deleted)
    ensures forall k :: k in n.children && k !in o.children ==> Diff(o, n).children[k] == Retag(n.children[k], Inserted)
    ensures forall k :: k in o.children && k in n.children ==> Diff(o, n).children[k] == Diff(o.children[k], n.children[k])
  {
    DiffUnfold(o, n);
    StagedChildren(o, n);
  }

  /** Every child stays stored under its own key. */
  lemma {:induction false} DiffWellKeyed(o: Tree, n: Tree)
    requires WellKeyed(o) && WellKeyed(n)
    ensures WellKeyed(Diff(o, n))
    decreases o
  {
    DiffChildren(o, n);
    var r := Diff(o, n);
    forall k | k in r.children
      ensures r.children[k].key == k && WellKeyed(r.children[k])
    {
      if k in o.children && k in n.children {
        DiffWellKeyed(o.children[k], n.children[k]);
        DiffChildren(o.children[k], n.children[k]);
      } else if k in o.children {
        RetagShape(o.children[k], Deleted);
      } else {
        RetagShape(n.children[k], Inserted);
      }
    }
  }

  /** Diffing a tree against itself changes nothing. */
  lemma {:induction false} DiffSelf(t: Tree)
    ensures Diff(t, t) == t
    decreases t
  {
    DiffChildren(t, t);
    forall k | k in t.children
      ensures Diff(t, t).children[k] == t.children[k]
    {
      DiffSelf(t.children[k]);
    }
    assert Diff(t, t).children == t.children;
  }

  /** The propagation invariant holds of a diff of a freshly built old tree, and no node comes out
      Updated. */
  lemma {:induction false} DiffConsistent(o: Tree, n: Tree)
    requires AllKind(o, Unchanged)
    ensures Consistent(Diff(o, n)) && NoUpdated(Diff(o, n))
    decreases o
  {
    DiffChildren(o, n);
    var r := Diff(o, n);
    forall k | k in r.children
      ensures Consistent(r.children[k]) && NoUpdated(r.children[k])
    {
      if k in o.children && k in n.children {
        DiffConsistent(o.children[k], n.children[k]);
      } else if k in o.children {
        RetagShape(o.children[k], Deleted);
        AllKindConsistent(Retag(o.children[k], Deleted), Deleted);
      } else {
        RetagShape(n.children[k], Inserted);
        AllKindConsistent(Retag(n.children[k], Inserted), Inserted);
      }
    }
  }

  /** Swapping the two documents swaps every Deleted and Inserted tag and nothing else. */
  lemma {:induction false} DiffSwap(o: Tree, n: Tree)
    requires AllKind(o, Unchanged) && AllKind(n, Unchanged)
    requires WellKeyed(o) && WellKeyed(n) && o.key == n.key
    ensures Diff(n, o) == SwapKinds(Diff(o, n))
    decreases o
  {
    DiffChildren(o, n);
    DiffChildren(n, o);
    var r, s := Diff(o, n), Diff(n, o);
    var w := SwapKinds(r);
    assert w.children.Keys == s.children.Keys;
    forall k | k in s.children
      ensures s.children[k] == w.children[k]
    {
      assert w.children[k] == SwapKinds(r.children[k]);
      if k in o.children && k in n.children {
        DiffSwap(o.children[k], n.children[k]);
      } else if k in o.children {
        SwapRetag(o.children[k], Deleted);
      } else {
        SwapRetag(n.children[k], Inserted);
      }
    }
    assert s.children == w.children;
  }

  /** For two freshly built trees, the diff tags nothing exactly when the trees are equal. */
  lemma {:induction false} DiffUnchangedIffEqual(o: Tree, n: Tree)
    requires AllKind(o, Unchanged) && AllKind(n, Unchanged)
    requires WellKeyed(o) && WellKeyed(n) && o.key == n.key
    ensures AllKind(Diff(o, n), Unchanged) <==> o == n
    decreases o
  {
    DiffChildren(o, n);
    var r := Diff(o, n);
    if AllKind(r, Unchanged) {
      forall k | k in o.children
        ensures k in n.children
      {
        assert AllKind(r.children[k], Unchanged);
      }
      forall k | k in n.children
        ensures k in o.children
      {
        assert AllKind(r.children[k], Unchanged);
      }
      forall k | k in o.children
        ensures o.children[k] == n.children[k]
      {
        assert AllKind(r.children[k], Unchanged);
        DiffUnchangedIffEqual(o.children[k], n.children[k]);
      }
      assert o.children == n.children;
    }
    if o == n {
      DiffSelf(o);
    }
  }

  /** What `diff` leaves of the new tree: its structure and every tag it had, except that the
      subtrees only it has, at every level reached through common keys, are now retagged Inserted
      (they are the nodes the old tree took over). */
  function NewAfter(o: Tree, n: Tree): Tree
    decreases n
  {
    n.(children := map k | k in n.children :: if k in o.children then NewAfter(o.children[k], n.children[k]) else Retag(n.children[k], Inserted))
  }

  /** The new tree keeps its key, its tag and its keys; a child only it has is retagged Inserted,
      a common child is what `diff` leaves of it. */
  lemma NewAfterChildren(o: Tree, n: Tree)
    ensures NewAfter(o, n).key == n.key && NewAfter(o, n).kind == n.kind
    ensures NewAfter(o, n).children.Keys == n.children.Keys
    ensures forall k :: k in n.children && k !in o.children ==> NewAfter(o, n).children[k] == Retag(n.children[k], Inserted)
    ensures forall k :: k in n.children && k in o.children ==> NewAfter(o, n).children[k] == NewAfter(o.children[k], n.children[k])
  {
  }

  /** `diff` changes no key and no child structure of the new tree. */
  lemma {:induction false} NewAfterShape(o: Tree, n: Tree)
    ensures SameShape(NewAfter(o, n), n)
    ensures WellKeyed(n) ==> WellKeyed(NewAfter(o, n))
    decreases n
  {
    NewAfterChildren(o, n);
    forall k | k in n.children
      ensures SameShape(NewAfter(o, n).children[k], n.children[k])
      ensures WellKeyed(n) ==> NewAfter(o, n).children[k].key == k && WellKeyed(NewAfter(o, n).children[k])
    {
      if k in o.children {
        NewAfterShape(o.children[k], n.children[k]);
      } else {
        RetagShape(n.children[k], Inserted);
      }
    }
  }

  /** Every subtree the diff takes over is shared: under an only-new key, at every level reached
      through common keys, the diff and the new tree hold the same value. */
  lemma {:induction false} NewAfterShared(o: Tree, n: Tree)
    ensures forall k :: k in n.children && k !in o.children ==>
      k in Diff(o, n).children && Diff(o, n).children[k] == NewAfter(o, n).children[k]
  {
    DiffChildren(o, n);
    NewAfterChildren(o, n);
  }

  /** A new tree diffed against an equal old tree is left as it was. */
  lemma {:induction false} NewAfterSelf(t: Tree)
    ensures NewAfter(t, t) == t
    decreases t
  {
    NewAfterChildren(t, t);
    forall k | k in t.children
      ensures NewAfter(t, t).children[k] == t.children[k]
    {
      NewAfterSelf(t.children[k]);
    }
    assert NewAfter(t, t).children == t.children;
  }

  /** In a freshly built new tree, the diff tags nothing but whole Inserted subtrees, and nothing
      Updated. */
  lemma {:induction false} NewAfterConsistent(o: Tree, n: Tree)
    requires AllKind(n, Unchanged)
    ensures Consistent(NewAfter(o, n)) && NoUpdated(NewAfter(o, n))
    decreases n
  {
    NewAfterChildren(o, n);
    var r := NewAfter(o, n);
    forall k | k in r.children
      ensures Consistent(r.children[k]) && NoUpdated(r.children[k])
    {
      if k in o.children {
        NewAfterConsistent(o.children[k], n.children[k]);
      } else {
        RetagShape(n.children[k], Inserted);
        AllKindConsistent(Retag(n.children[k], Inserted), Inserted);
      }
    }
  }
}
