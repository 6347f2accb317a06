/** What `TreeNode.__str__` prints, as values: one line per node whose tag is not Unchanged,
    carrying the node's depth, key and tag. Sibling order is not part of the model, so a report
    is a multiset of lines. */
module Reports {
  import opened JsonValue
  import opened Trees
  import Builder
  import Differ

  datatype Line = Line(depth: nat, key: Key, kind: Kind)

  /** The node's own line, if it has one. */
  function OwnLines(t: Tree, depth: nat): multiset<Line> {
    if t.kind != Unchanged then multiset{Line(depth, t.key, t.kind)} else multiset{}
  }

  /** The report of `t` printed at indentation `depth`: its own line, then its children one
      level deeper. */
  ghost function Report(t: Tree, depth: nat): multiset<Line>
    decreases t, 1
  {
    OwnLines(t, depth) + ReportChildren(t, t.children.Keys, depth + 1)
  }

  /** The reports of the children of `t` under the keys `ks`. */
  ghost function ReportChildren(t: Tree, ks: set<Key>, depth: nat): multiset<Line>
    requires ks <= t.children.Keys
    decreases t, 0, ks
  {
    if ks == {} then multiset{}
    else
      var k :| k in ks;
      Report(t.children[k], depth) + ReportChildren(t, ks - {k}, depth)
  }

  /** The children's reports add up the same whichever child is taken first. */
  lemma {:induction false} ReportChildrenPick(t: Tree, ks: set<Key>, k: Key, depth: nat)
    requires ks <= t.children.Keys && k in ks
    ensures ReportChildren(t, ks, depth) == Report(t.children[k], depth) + ReportChildren(t, ks - {k}, depth)
    decreases ks
  {
    var j :| j in ks && ReportChildren(t, ks, depth) == Report(t.children[j], depth) + ReportChildren(t, ks - {j}, depth);
    if j != k {
      ReportChildrenPick(t, ks - {j}, k, depth);
      ReportChildrenPick(t, ks - {k}, j, depth);
      assert ks - {j} - {k} == ks - {k} - {j};
    }
  }

  /** Every printed line from index `from` on is indented deeper than `depth`: what `__str__`
      prints after a node's own line belongs to the node's descendants. */
  predicate Deeper(lines: seq<Line>, from: nat, depth: nat) {
    forall i :: from <= i < |lines| ==> lines[i].depth > depth
  }

  /** Appending lines that are all deeper keeps the property. */
  lemma DeeperAppend(a: seq<Line>, b: seq<Line>, from: nat, depth: nat)
    requires Deeper(a, from, depth) && Deeper(b, 0, depth)
    ensures Deeper(a + b, from, depth)
  {
  }

  /** A child's printout, its own line at `depth + 1` first, lies wholly deeper than `depth`. */
  lemma DeeperChild(lines: seq<Line>, from: nat, depth: nat)
    requires from <= 1 && Deeper(lines, from, depth + 1)
    requires from == 1 ==> lines != [] && lines[0].depth == depth + 1
    ensures Deeper(lines, 0, depth)
  {
  }

  /** Printing one more child adds that child's report. */
  lemma ReportChildrenAdd(t: Tree, done: set<Key>, k: Key, depth: nat)
    requires done <= t.children.Keys && k in t.children && k !in done
    ensures ReportChildren(t, done + {k}, depth) == ReportChildren(t, done, depth) + Report(t.children[k], depth)
  {
    ReportChildrenPick(t, done + {k}, k, depth);
    assert done + {k} - {k} == done;
  }

  /** An Unchanged node whose other children are Unchanged throughout reports exactly what its
      child under `k` reports, one level deeper. */
  lemma ReportOneChild(t: Tree, k: Key, depth: nat, below: nat)
    requires k in t.children && t.kind == Unchanged && below == depth + 1
    requires forall j :: j in t.children && j != k ==> AllKind(t.children[j], Unchanged)
    ensures Report(t, depth) == Report(t.children[k], below)
  {
    ReportChildrenPick(t, t.children.Keys, k, depth + 1);
    forall j | j in t.children.Keys - {k}
      ensures Report(t.children[j], depth + 1) == multiset{}
    {
      ReportEmptyIff(t.children[j], depth + 1);
    }
    ReportChildrenEmpty(t, t.children.Keys - {k}, depth + 1);
  }

  /** A scalar entry tagged throughout prints two lines: its key, then its value one level
      deeper. */
  lemma ScalarEntryReport(key: Key, value: Json, kind: Kind, depth: nat, below: nat)
    requires IsScalar(value) && kind != Unchanged && below == depth + 1
    ensures Report(Retag(Builder.BuildValue(key, value), kind), depth) ==
      multiset{Line(depth, key, kind), Line(below, ScalarKey(value), kind)}
  {
    var t := Retag(Builder.BuildValue(key, value), kind);
    Builder.ScalarNode(key, value);
    assert t.children.Keys == {ScalarKey(value)};
    ReportChildrenPick(t, t.children.Keys, ScalarKey(value), depth + 1);
    assert t.children.Keys - {ScalarKey(value)} == {};
    var leaf := t.children[ScalarKey(value)];
    assert leaf == Retag(Leaf(ScalarKey(value)), kind);
    assert leaf.children.Keys == {};
    assert Report(leaf, depth + 1) == multiset{Line(depth + 1, ScalarKey(value), kind)};
  }

  /** A node whose only change is one scalar child, tagged throughout: its report is that
      child's two lines. */
  lemma SoleScalarChild(t: Tree, k: Key, value: Json, kind: Kind, depth: nat, below: nat, further: nat)
    requires IsScalar(value) && kind != Unchanged && below == depth + 1 && further == depth + 2
    requires k in t.children && t.kind == Unchanged && t.children[k] == Retag(Builder.BuildValue(k, value), kind)
    requires forall j :: j in t.children && j != k ==> AllKind(t.children[j], Unchanged)
    ensures Report(t, depth) == multiset{Line(below, k, kind), Line(further, ScalarKey(value), kind)}
  {
    ReportOneChild(t, k, depth, below);
    ScalarEntryReport(k, value, kind, below, further);
  }

  /** A node that is not Unchanged has its line in the report. */
  lemma ReportHasOwnLine(t: Tree, depth: nat)
    requires t.kind != Unchanged
    ensures Line(depth, t.key, t.kind) in Report(t, depth)
  {
  }

  /** A child's report, one level deeper, is part of its parent's. */
  lemma ReportIncludesChild(t: Tree, k: Key, depth: nat, below: nat)
    requires k in t.children && below == depth + 1
    ensures Report(t.children[k], below) <= Report(t, depth)
  {
    ReportChildrenPick(t, t.children.Keys, k, below);
  }

  /** The report is empty exactly when every node is Unchanged. */
  lemma {:induction false} ReportEmptyIff(t: Tree, depth: nat)
    ensures Report(t, depth) == multiset{} <==> AllKind(t, Unchanged)
    decreases t
  {
    forall k | k in t.children
      ensures Report(t.children[k], depth + 1) == multiset{} <==> AllKind(t.children[k], Unchanged)
    {
      ReportEmptyIff(t.children[k], depth + 1);
    }
    if AllKind(t, Unchanged) {
      ReportChildrenEmpty(t, t.children.Keys, depth + 1);
    } else if t.kind == Unchanged {
      var k :| k in t.children && !AllKind(t.children[k], Unchanged);
      ReportIncludesChild(t, k, depth, depth + 1);
    }
  }

  lemma {:induction false} ReportChildrenEmpty(t: Tree, ks: set<Key>, depth: nat)
    requires ks <= t.children.Keys
    requires forall k :: k in ks ==> Report(t.children[k], depth) == multiset{}
    ensures ReportChildren(t, ks, depth) == multiset{}
    decreases ks
  {
    if ks != {} {
      var k :| k in ks && ReportChildren(t, ks, depth) == Report(t.children[k], depth) + ReportChildren(t, ks - {k}, depth);
      ReportChildrenEmpty(t, ks - {k}, depth);
    }
  }

  /** Identity law: two documents that build the same tree give an empty report, in particular
      one document compared with itself. */
  lemma IdentityLaw(a: map<string, Json>)
    requires Buildable(JDict(a))
    ensures Report(Differ.Diff(Builder.FromJson(a), Builder.FromJson(a)), 0) == multiset{}
  {
    Builder.FromJsonShape(a);
    Differ.DiffSelf(Builder.FromJson(a));
    ReportEmptyIff(Builder.FromJson(a), 0);
  }

  /** The report of two documents is empty exactly when they build the same tree. */
  lemma ReportEmptyIffSameTree(a: map<string, Json>, b: map<string, Json>)
    requires Buildable(JDict(a)) && Buildable(JDict(b))
    ensures Report(Differ.Diff(Builder.FromJson(a), Builder.FromJson(b)), 0) == multiset{}
        <==> Builder.FromJson(a) == Builder.FromJson(b)
  {
    Builder.FromJsonShape(a);
    Builder.FromJsonShape(b);
    Differ.DiffUnchangedIffEqual(Builder.FromJson(a), Builder.FromJson(b));
    ReportEmptyIff(Differ.Diff(Builder.FromJson(a), Builder.FromJson(b)), 0);
  }
}
