/** The value of a tree of `TreeNode`s: a key, a change tag and the children keyed by their own key. */
module Trees {
  import opened JsonValue

  /** The change tags of `NodeChangeType`. */
  datatype Kind = Unchanged | Inserted | Deleted | Updated

  datatype Tree = Node(key: Key, kind: Kind, children: map<Key, Tree>)

  /** The key of the synthetic node the whole document hangs under. */
  const RootKey: Key := KStr("root")

  function Leaf(k: Key): Tree {
    Node(k, Unchanged, map[])
  }

  /** ASCII lower-casing of one character. */
  function LowerChar(c: char): char {
    if 'A' <= c <= 'Z' then (c as int + 32) as char else c
  }

  /** ASCII lower-casing, standing for Python's `str.lower`. */
  function Lower(s: string): (r: string)
    ensures |r| == |s|
    ensures forall i :: 0 <= i < |s| ==> r[i] == LowerChar(s[i])
  {
    if s == [] then [] else [LowerChar(s[0])] + Lower(s[1..])
  }

  /** `is_root`: the key, printed and lower-cased, reads "root". Only a string key can print so. */
  predicate IsRoot(k: Key) {
    k.KStr? && Lower(k.s) == "root"
  }

  /** A character lower-cases to a lower-case letter exactly when it is that letter or its
      upper-case form. */
  lemma LowerCharIs(c: char, lower: char, upper: char)
    requires 'a' <= lower <= 'z' && upper as int == lower as int - 32
    ensures LowerChar(c) == lower <==> c == lower || c == upper
  {
  }

  /** A string key is a root key exactly when it spells `root` in any letter case; no other key
      is. */
  lemma RootSentinel()
    ensures IsRoot(RootKey)
    ensures forall s: string :: IsRoot(KStr(s)) <==>
      |s| == 4 && s[0] in "rR" && s[1] in "oO" && s[2] in "oO" && s[3] in "tT"
    ensures forall k: Key :: !k.KStr? ==> !IsRoot(k)
  {
    forall s: string
      ensures IsRoot(KStr(s)) <==> |s| == 4 && s[0] in "rR" && s[1] in "oO" && s[2] in "oO" && s[3] in "tT"
    {
      if |s| == 4 {
        var r := Lower(s);
        assert r == "root" <==> r[0] == 'r' && r[1] == 'o' && r[2] == 'o' && r[3] == 't';
        LowerCharIs(s[0], 'r', 'R');
        LowerCharIs(s[1], 'o', 'O');
        LowerCharIs(s[2], 'o', 'O');
        LowerCharIs(s[3], 't', 'T');
      }
    }
    assert Lower("root") == "root";
  }

  /** Every child is stored under its own key, all the way down (the invariant `add_child` keeps). */
  ghost predicate WellKeyed(t: Tree) {
    forall k :: k in t.children ==> t.children[k].key == k && WellKeyed(t.children[k])
  }

  /** Every node of `t` carries the tag `kind`. */
  ghost predicate AllKind(t: Tree, kind: Kind) {
    t.kind == kind && forall k :: k in t.children ==> AllKind(t.children[k], kind)
  }

  /** Same keys and the same child structure, whatever the tags. */
  ghost predicate SameShape(a: Tree, b: Tree) {
    a.key == b.key && a.children.Keys == b.children.Keys &&
    forall k :: k in a.children ==> SameShape(a.children[k], b.children[k])
  }

  /** The propagation invariant: below an Inserted or Deleted node every node carries its tag. */
  ghost predicate Consistent(t: Tree) {
    (t.kind == Inserted || t.kind == Deleted ==> AllKind(t, t.kind)) &&
    forall k :: k in t.children ==> Consistent(t.children[k])
  }

  /** No node carries `Updated`. */
  ghost predicate NoUpdated(t: Tree) {
    t.kind != Updated && forall k :: k in t.children ==> NoUpdated(t.children[k])
  }

  /** `change_node_type`: the tree with every node retagged. */
  function Retag(t: Tree, kind: Kind): Tree {
    Node(t.key, kind, map k | k in t.children :: Retag(t.children[k], kind))
  }

  /** Inserted and Deleted exchanged everywhere. */
  function SwapKinds(t: Tree): Tree {
    Node(t.key, SwapKind(t.kind), map k | k in t.children :: SwapKinds(t.children[k]))
  }

  function SwapKind(kind: Kind): Kind {
    match kind
    case Inserted => Deleted
    case Deleted => Inserted
    case _ => kind
  }

  /** Retagging keeps keys and structure and leaves every node with the new tag. */
  lemma {:induction false} RetagShape(t: Tree, kind: Kind)
    ensures SameShape(Retag(t, kind), t) && AllKind(Retag(t, kind), kind)
    ensures WellKeyed(t) ==> WellKeyed(Retag(t, kind))
  {
    forall k | k in t.children {
      RetagShape(t.children[k], kind);
    }
  }

  /** Conversely, a tree of the same shape carrying `kind` everywhere is the retagged tree. */
  lemma {:induction false} RetagUnique(t: Tree, u: Tree, kind: Kind)
    requires SameShape(u, t) && AllKind(u, kind)
    ensures u == Retag(t, kind)
  {
    forall k | k in t.children {
      RetagUnique(t.children[k], u.children[k], kind);
    }
    assert u.children == Retag(t, kind).children;
  }

  /** A uniformly tagged tree satisfies the propagation invariant. */
  lemma {:induction false} AllKindConsistent(t: Tree, kind: Kind)
    requires AllKind(t, kind)
    ensures Consistent(t)
    ensures kind != Updated ==> NoUpdated(t)
  {
    forall k | k in t.children {
      AllKindConsistent(t.children[k], kind);
    }
  }

  lemma {:induction false} SwapRetag(t: Tree, kind: Kind)
    ensures SwapKinds(Retag(t, kind)) == Retag(t, SwapKind(kind))
  {
    forall k | k in t.children {
      SwapRetag(t.children[k], kind);
    }
    assert SwapKinds(Retag(t, kind)).children == Retag(t, SwapKind(kind)).children;
  }
}
