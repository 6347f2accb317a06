/** The in-place program: `TreeNode` objects whose `children` dictionaries and tags are updated
    step by step. Each node keeps a ghost `tree`, the value of its subtree, and every method is
    proved against the value functions of Trees, Builder, Differ and Reports through it. */
module JsonCompare {
  import opened JsonValue
  import opened Trees
  import Builder
  import Differ
  import Reports

  datatype DiffError = ValueError(message: string)

  datatype Result<T> = Success(value: T) | Failure(error: DiffError)

  const MissingNodeMessage: string := "Must have at least one node to compare."

  class TreeNode {
    const data: Key
    var children: map<Key, TreeNode>
    var nodeType: Kind
    /** The value of the subtree below this node. */
    ghost var tree: Tree
    /** The nodes of the subtree; it may also hold nodes a later `add_child` has unhooked. */
    ghost var Repr: set<TreeNode>

    /** The shape of the footprint one level down: every child lies below this node, in a part of
        the footprint of its own. */
    ghost predicate Spine()
      reads this`Repr, this`children, Repr`Repr
    {
      this in Repr &&
      (forall k :: k in children ==> children[k] in Repr && children[k].Repr <= Repr && this !in children[k].Repr) &&
      (forall k, k' :: k in children && k' in children && k != k' ==> children[k].Repr !! children[k'].Repr)
    }

    /** A finite tree whose children are stored under their own keys, and whose `tree` is the
        value of the subtree. */
    ghost predicate Valid()
      reads this, Repr
      decreases Repr
    {
      Spine() &&
      (forall k :: k in children ==> children[k].data == k && children[k].Valid()) &&
      Linked()
    }

    /** `Valid` with the node's own `tree` not yet brought up to date: the state inside a loop
        that works on the children one by one. */
    ghost predicate ChildrenValid()
      reads this, Repr
    {
      Spine() && forall k :: k in children ==> children[k].data == k && children[k].Valid()
    }

    /** `tree` is this node with its children's values. */
    ghost predicate Linked()
      reads this, set k | k in children :: children[k]
    {
      tree.key == data && tree.kind == nodeType && tree.children.Keys == children.Keys &&
      forall k :: k in children ==> tree.children[k] == children[k].tree
    }

    /** `TreeNode(data)`: a node with no children, tagged Unchanged. */
    constructor (data: Key)
      ensures Valid() && fresh(Repr) && Repr == {this}
      ensures this.data == data && children == map[] && nodeType == Unchanged
      ensures tree == Leaf(data)
    {
      this.data := data;
      children := map[];
      nodeType := Unchanged;
      tree := Leaf(data);
      Repr := {this};
    }

    /** `add_child`: stores `obj` under its own key, replacing any child held there. */
    method AddChild(obj: TreeNode)
      requires Valid() && obj.Valid() && Repr !! obj.Repr
      modifies this`children, this`tree, this`Repr
      ensures Valid() && Repr == old(Repr) + obj.Repr
      ensures children == old(children)[obj.data := obj]
      ensures tree == old(tree).(children := old(tree).children[obj.data := obj.tree])
    {
      children := children[obj.data := obj];
      tree := tree.(children := tree.children[obj.data := obj.tree]);
      Repr := Repr + obj.Repr;
    }

    /** `is_root`. */
    predicate IsRoot() {
      Trees.IsRoot(data)
    }

    /** `__str__(level)`: this node's line when it is not Unchanged, then every child's report one
        level deeper. */
    method Render(level: nat) returns (lines: seq<Reports.Line>)
      requires Valid()
      ensures multiset(lines) == Reports.Report(tree, level)
      ensures nodeType != Unchanged ==> lines != [] && lines[0] == Reports.Line(level, data, nodeType)
      ensures Reports.Deeper(lines, if nodeType != Unchanged then 1 else 0, level)
      decreases Repr, 2
    {
      var below := RenderChildren(level);
      if nodeType != Unchanged {
        Reports.DeeperAppend([Reports.Line(level, data, nodeType)], below, 1, level);
        lines := [Reports.Line(level, data, nodeType)] + below;
      } else {
        lines := below;
      }
    }

    /** The loop of `__str__`: every child's report, one level deeper, one child at a time. */
    method RenderChildren(level: nat) returns (lines: seq<Reports.Line>)
      requires Valid()
      ensures multiset(lines) == Reports.ReportChildren(tree, tree.children.Keys, level + 1)
      ensures Reports.Deeper(lines, 0, level)
      decreases Repr, 1
    {
      lines := [];
      var todo := children.Keys;
      ghost var done: set<Key> := {};
      while todo != {}
        invariant done + todo == children.Keys && done !! todo
        invariant multiset(lines) == Reports.ReportChildren(tree, done, level + 1)
        invariant Reports.Deeper(lines, 0, level)
        decreases todo
      {
        var k :| k in todo;
        lines := RenderChild(level, k, lines, done);
        done, todo := done + {k}, todo - {k};
      }
    }

    /** One step of that loop: the report of the child under `k` appended to what is printed. */
    method RenderChild(level: nat, k: Key, lines: seq<Reports.Line>, ghost done: set<Key>) returns (more: seq<Reports.Line>)
      requires Valid() && k in children && k !in done && done <= children.Keys
      requires multiset(lines) == Reports.ReportChildren(tree, done, level + 1)
      requires Reports.Deeper(lines, 0, level)
      ensures multiset(more) == Reports.ReportChildren(tree, done + {k}, level + 1)
      ensures Reports.Deeper(more, 0, level)
      decreases Repr, 0
    {
      var sub := children[k].Render(level + 1);
      Reports.ReportChildrenAdd(tree, done, k, level + 1);
      Reports.DeeperChild(sub, if children[k].nodeType != Unchanged then 1 else 0, level);
      Reports.DeeperAppend(lines, sub, 0, level);
      more := lines + sub;
    }
  }

  /** `change_node_type`: retags `node` and everything below it. Only tags change. The node's own
      tag is written after its children's; the children's footprints do not hold the node, so the
      order is not observable. */
  method ChangeNodeType(kind: Kind, node: TreeNode)
    requires node.Valid()
    modifies node.Repr`nodeType, node.Repr`tree
    ensures node.Valid()
    ensures node.tree == Retag(old(node.tree), kind)
    decreases node.Repr, 2
  {
    ghost var before := node.tree;
    RetagEach(kind, node);
    SetTag(node, kind, Retag(before, kind));
  }

  /** The loop of `change_node_type`: every child retagged, the node itself not touched. */
  method RetagEach(kind: Kind, node: TreeNode)
    requires node.ChildrenValid()
    modifies (node.Repr - {node})`nodeType, (node.Repr - {node})`tree
    ensures node.ChildrenValid()
    ensures forall k :: k in node.children ==> node.children[k].tree == Retag(old(node.children[k].tree), kind)
    decreases node.Repr, 1
  {
    var todo := node.children.Keys;
    while todo != {}
      invariant todo <= node.children.Keys
      invariant node.ChildrenValid()
      invariant forall k :: k in node.children ==>
        node.children[k].tree == if k in todo then old(node.children[k].tree) else Retag(old(node.children[k].tree), kind)
      decreases todo
    {
      var k :| k in todo;
      RetagChild(kind, node, k);
      todo := todo - {k};
    }
  }

  /** One step of the loop of `change_node_type`: the child under `k` is retagged, its siblings
      are left as they were. */
  method RetagChild(kind: Kind, node: TreeNode, k: Key)
    requires node.ChildrenValid() && k in node.children
    modifies node.children[k].Repr`nodeType, node.children[k].Repr`tree
    ensures node.ChildrenValid()
    ensures forall j :: j in node.children ==>
      node.children[j].tree == if j == k then Retag(old(node.children[k].tree), kind) else old(node.children[j].tree)
    decreases node.Repr, 0
  {
    ChangeNodeType(kind, node.children[k]);
  }

  /** `node.node_type = type`, once the children carry their final values. */
  method SetTag(node: TreeNode, kind: Kind, ghost t: Tree)
    requires node.ChildrenValid()
    requires t.key == node.data && t.kind == kind && t.children.Keys == node.children.Keys
    requires forall k :: k in node.children ==> t.children[k] == node.children[k].tree
    modifies node`nodeType, node`tree
    ensures node.Valid() && node.tree == t && node.nodeType == kind
  {
    node.nodeType := kind;
    node.tree := t;
  }

  /** Brings the ghost value of `node` up to date once its children have been worked on. */
  ghost method Relink(node: TreeNode, t: Tree)
    requires node.ChildrenValid()
    requires t.key == node.data && t.kind == node.nodeType && t.children.Keys == node.children.Keys
    requires forall k :: k in node.children ==> t.children[k] == node.children[k].tree
    modifies node`tree
    ensures node.Valid() && node.tree == t
  {
    node.tree := t;
  }

  /** `make_inserted`. */
  method MakeInserted(node: TreeNode)
    requires node.Valid()
    modifies node.Repr`nodeType, node.Repr`tree
    ensures node.Valid()
    ensures node.tree == Retag(old(node.tree), Inserted)
  {
    ChangeNodeType(Inserted, node);
  }

  /** `make_deleted`. */
  method MakeDeleted(node: TreeNode)
    requires node.Valid()
    modifies node.Repr`nodeType, node.Repr`tree
    ensures node.Valid()
    ensures node.tree == Retag(old(node.tree), Deleted)
  {
    ChangeNodeType(Deleted, node);
  }

  /** The entries of `fields` under the keys in `done`: what `make_tree` has added so far. */
  function EntriesUnder(fields: map<string, Json>, done: set<string>): map<Key, Tree>
    requires Buildable(JDict(fields)) && done <= fields.Keys
  {
    map k | k in done :: KStr(k) := Builder.BuildValue(KStr(k), fields[k])
  }

  /** Building one more entry adds it to what is there, replacing what was stored under its key. */
  lemma EntriesUnderAdd(base: map<Key, Tree>, fields: map<string, Json>, done: set<string>, key: string)
    requires Buildable(JDict(fields)) && done <= fields.Keys && key in fields
    ensures (base + EntriesUnder(fields, done))[KStr(key) := Builder.BuildValue(KStr(key), fields[key])]
         == base + EntriesUnder(fields, done + {key})
  {
  }

  /** Merging maps one after another is merging them at once. */
  lemma MergeAssoc(a: map<Key, Tree>, b: map<Key, Tree>, c: map<Key, Tree>)
    ensures (a + b) + c == a + (b + c)
  {
  }

  /** The entries of `src` under the keys `ks`. */
  function Moved<V>(src: map<Key, V>, ks: set<Key>): map<Key, V>
    requires ks <= src.Keys
  {
    map k | k in ks :: src[k]
  }

  /** Taking one more key of `src` over to `base`. */
  lemma MergeOneMore<V>(base: map<Key, V>, src: map<Key, V>, done: set<Key>, k: Key)
    requires done <= src.Keys && k in src
    ensures (base + Moved(src, done))[k := src[k]] == base + Moved(src, done + {k})
  {
  }

  /** What `base` holds under a key taken over from `src`. */
  lemma MovedAt<V>(base: map<Key, V>, src: map<Key, V>, ks: set<Key>, k: Key)
    requires ks <= src.Keys && k in ks
    ensures k in base + Moved(src, ks) && (base + Moved(src, ks))[k] == src[k]
  {
  }

  /** `make_tree(json, parent)`: one child of `parent` per entry of `json`, replacing a child
      already stored under the same key. */
  method MakeTree(json: map<string, Json>, parent: TreeNode)
    requires parent.Valid() && Buildable(JDict(json))
    modifies parent`children, parent`tree, parent`Repr
    ensures parent.Valid()
    ensures parent.tree == old(parent.tree).(children := old(parent.tree).children + Builder.Entries(json))
    ensures old(parent.Repr) <= parent.Repr && fresh(parent.Repr - old(parent.Repr))
    decreases JDict(json), 1
  {
    ghost var t0 := parent.tree;
    var todo := json.Keys;
    ghost var done: set<string> := {};
    while todo != {}
      invariant done + todo == json.Keys && done !! todo
      invariant parent.Valid()
      invariant parent.tree == t0.(children := t0.children + EntriesUnder(json, done))
      invariant old(parent.Repr) <= parent.Repr && fresh(parent.Repr - old(parent.Repr))
      decreases todo
    {
      var key :| key in todo;
      AddEntry(json, key, parent);
      EntriesUnderAdd(t0.children, json, done, key);
      done, todo := done + {key}, todo - {key};
    }
    assert EntriesUnder(json, done) == Builder.Entries(json);
  }

  /** One step of `make_tree`: the node for `json[key]` built and added to `parent`. */
  method AddEntry(json: map<string, Json>, key: string, parent: TreeNode)
    requires parent.Valid() && Buildable(JDict(json)) && key in json
    modifies parent`children, parent`tree, parent`Repr
    ensures parent.Valid()
    ensures parent.tree == old(parent.tree).(children := old(parent.tree).children[KStr(key) := Builder.BuildValue(KStr(key), json[key])])
    ensures old(parent.Repr) <= parent.Repr && fresh(parent.Repr - old(parent.Repr))
    decreases JDict(json), 0
  {
    var node := BuildNode(key, json[key]);
    parent.AddChild(node);
  }

  /** The node `make_tree` builds for one entry: a dict is built below it, the elements of a list
      are merged into it, and a scalar becomes its single value child. */
  method BuildNode(key: string, value: Json) returns (node: TreeNode)
    requires Buildable(value)
    ensures node.Valid() && fresh(node.Repr)
    ensures node.tree == Builder.BuildValue(KStr(key), value)
    decreases value, 3
  {
    node := new TreeNode(KStr(key));
    if value.JDict? {
      MakeTree(value.fields, node);
    } else if value.JList? {
      MergeList(value, node);
    } else {
      AddValueChild(value, node);
    }
  }

  /** The scalar branch of `make_tree`: `node.add_child(TreeNode(value))`. */
  method AddValueChild(value: Json, node: TreeNode)
    requires IsScalar(value) && node.Valid() && node.tree == Leaf(node.data)
    modifies node`children, node`tree, node`Repr
    ensures node.Valid() && old(node.Repr) <= node.Repr && fresh(node.Repr - old(node.Repr))
    ensures node.tree == Node(node.data, Unchanged, map[ScalarKey(value) := Leaf(ScalarKey(value))])
  {
    var leaf := new TreeNode(ScalarKey(value));
    node.AddChild(leaf);
  }

  /** The `list` branch of `make_tree`: the elements merged into a fresh `node` one by one. */
  method MergeList(value: Json, node: TreeNode)
    requires value.JList? && Buildable(value)
    requires node.Valid() && node.tree == Leaf(node.data)
    modifies node`children, node`tree, node`Repr
    ensures node.Valid() && old(node.Repr) <= node.Repr && fresh(node.Repr - old(node.Repr))
    ensures node.tree == Node(node.data, Unchanged, Builder.ListEntries(value, |value.items|))
    decreases value, 2
  {
    var i := 0;
    while i < |value.items|
      invariant 0 <= i <= |value.items|
      invariant node.Valid() && old(node.Repr) <= node.Repr && fresh(node.Repr - old(node.Repr))
      invariant node.tree == Node(node.data, Unchanged, Builder.ListEntries(value, i))
    {
      MergeItem(value.items[i], node, value);
      i := i + 1;
    }
  }

  /** One element of a list value: a dict is built into `node`, a list of dicts is built into
      `node` element by element, a scalar is skipped. */
  method MergeItem(item: Json, node: TreeNode, ghost list: Json)
    requires node.Valid() && Buildable(item)
    requires list.JList? && item in list.items && Buildable(list)
    requires item.JList? ==> forall j :: 0 <= j < |item.items| ==> item.items[j].JDict?
    modifies node`children, node`tree, node`Repr
    ensures node.Valid()
    ensures node.tree == old(node.tree).(children := old(node.tree).children + Builder.ItemEntries(item))
    ensures old(node.Repr) <= node.Repr && fresh(node.Repr - old(node.Repr))
    decreases list, 1, 0
  {
    if item.JDict? {
      MakeTree(item.fields, node);
    } else if item.JList? {
      MergeDicts(item, node, list);
    }
  }

  /** A list inside a list: each of its elements, all dicts, built into `node` in turn. */
  method MergeDicts(item: Json, node: TreeNode, ghost list: Json)
    requires node.Valid() && item.JList? && Buildable(item)
    requires list.JList? && item in list.items && Buildable(list)
    requires forall j :: 0 <= j < |item.items| ==> item.items[j].JDict?
    modifies node`children, node`tree, node`Repr
    ensures node.Valid()
    ensures node.tree == old(node.tree).(children := old(node.tree).children + Builder.ListEntries(item, |item.items|))
    ensures old(node.Repr) <= node.Repr && fresh(node.Repr - old(node.Repr))
    decreases list, 0, 1
  {
    ghost var t0 := node.tree;
    var j := 0;
    while j < |item.items|
      invariant 0 <= j <= |item.items|
      invariant node.Valid()
      invariant node.tree == t0.(children := t0.children + Builder.ListEntries(item, j))
      invariant old(node.Repr) <= node.Repr && fresh(node.Repr - old(node.Repr))
    {
      MergeDict(item, j, node, t0, list);
      j := j + 1;
    }
  }

  /** One element of a list inside a list, built into `node`. */
  method MergeDict(item: Json, j: nat, node: TreeNode, ghost t0: Tree, ghost list: Json)
    requires node.Valid() && item.JList? && Buildable(item) && j < |item.items|
    requires list.JList? && item in list.items && Buildable(list)
    requires forall i :: 0 <= i < |item.items| ==> item.items[i].JDict?
    requires node.tree == t0.(children := t0.children + Builder.ListEntries(item, j))
    modifies node`children, node`tree, node`Repr
    ensures node.Valid()
    ensures node.tree == t0.(children := t0.children + Builder.ListEntries(item, j + 1))
    ensures old(node.Repr) <= node.Repr && fresh(node.Repr - old(node.Repr))
    decreases list, 0, 0
  {
    MakeTree(item.items[j].fields, node);
    MergeAssoc(t0.children, Builder.ListEntries(item, j), Builder.Entries(item.items[j].fields));
  }

  /** `create_tree_from_JSON`: the document built below a fresh node labelled "root". */
  method CreateTreeFromJson(json: map<string, Json>) returns (root: TreeNode)
    requires Buildable(JDict(json))
    ensures root.Valid() && fresh(root.Repr)
    ensures root.tree == Builder.FromJson(json)
  {
    root := new TreeNode(RootKey);
    MakeTree(json, root);
  }

  /** One step of the first loop of `diff`: `make_deleted(oldNode.children[k])`. */
  method DeleteChild(o: TreeNode, k: Key)
    requires o.ChildrenValid() && k in o.children
    modifies o.children[k].Repr`nodeType, o.children[k].Repr`tree
    ensures o.ChildrenValid()
    ensures forall j :: j in o.children ==>
      o.children[j].tree == if j == k then Retag(old(o.children[k].tree), Deleted) else old(o.children[j].tree)
  {
    MakeDeleted(o.children[k]);
  }

  /** The first loop of `diff`: every child under `gone` is retagged Deleted. */
  method DeleteChildren(o: TreeNode, gone: set<Key>)
    requires o.Valid() && gone <= o.children.Keys
    modifies (o.Repr - {o})`nodeType, o.Repr`tree
    ensures o.Valid() && o.tree == Differ.MarkDeleted(old(o.tree), gone)
  {
    ghost var t0 := o.tree;
    DeleteEach(o, gone);
    Relink(o, Differ.MarkDeleted(t0, gone));
  }

  /** The loop itself: the children under `gone` retagged one by one; the node is not touched. */
  method DeleteEach(o: TreeNode, gone: set<Key>)
    requires o.ChildrenValid() && gone <= o.children.Keys
    modifies (o.Repr - {o})`nodeType, (o.Repr - {o})`tree
    ensures o.ChildrenValid()
    ensures forall j :: j in o.children ==>
      o.children[j].tree == if j in gone then Retag(old(o.children[j].tree), Deleted) else old(o.children[j].tree)
  {
    var todo := gone;
    while todo != {}
      invariant todo <= gone
      invariant o.ChildrenValid()
      invariant forall j :: j in o.children ==>
        o.children[j].tree == if j in gone && j !in todo then Retag(old(o.children[j].tree), Deleted) else old(o.children[j].tree)
      decreases todo
    {
      var k :| k in todo;
      DeleteChild(o, k);
      todo := todo - {k};
    }
  }

  /** Splicing in one more child of the new tree. */
  lemma SpliceInsertedAdd(o: Tree, n: Tree, done: set<Key>, k: Key)
    requires done <= n.children.Keys && k in n.children
    ensures Differ.SpliceInserted(o, n, done).(children := Differ.SpliceInserted(o, n, done).children[k := Retag(n.children[k], Inserted)])
         == Differ.SpliceInserted(o, n, done + {k})
  {
  }

  /** One step of the second loop of `diff`: `oldNode.children[k] = newNode.children[k]`, then
      `make_inserted(oldNode.children[k])`, with `c` the new tree's child under `k`. The node is
      not copied: both trees now hold it. The new tree's children under `rest` are not touched. */
  method SpliceChild(o: TreeNode, c: TreeNode, k: Key, ghost src: map<Key, TreeNode>, ghost rest: set<Key>)
    requires o.Valid() && c.Valid() && c.data == k && k !in o.children && o.Repr !! c.Repr
    requires rest <= src.Keys
    requires forall j :: j in rest ==> o.Repr !! src[j].Repr && src[j].Repr !! c.Repr && src[j].Valid()
    modifies o`children, o`Repr, o`tree, c.Repr`nodeType, c.Repr`tree
    ensures o.Valid()
    ensures o.children == old(o.children)[k := c] && o.Repr == old(o.Repr) + c.Repr
    ensures o.tree == old(o.tree).(children := old(o.tree).children[k := Retag(old(c.tree), Inserted)])
    ensures forall j :: j in rest ==> o.Repr !! src[j].Repr && src[j].Valid() && src[j].tree == old(src[j].tree)
  {
    ghost var t := o.tree;
    o.children := o.children[k := c];
    o.Repr := o.Repr + c.Repr;
    MakeInserted(o.children[k]);
    o.tree := t.(children := t.children[k := c.tree]);
  }

  /** The second loop of `diff`: the new tree's children under `added` moved into the old node
      and retagged Inserted. The new tree's other children are left as they were. */
  method SpliceChildren(o: TreeNode, n: TreeNode, added: set<Key>)
    requires o.Valid() && n.Valid() && o.Repr !! n.Repr
    requires added <= n.children.Keys && added !! o.children.Keys
    modifies o`children, o`Repr, o`tree, (n.Repr - {n})`nodeType, (n.Repr - {n})`tree
    ensures o.Valid() && o.tree == Differ.SpliceInserted(old(o.tree), old(n.tree), added)
    ensures o.children == old(o.children) + Moved(n.children, added)
    ensures old(o.Repr) <= o.Repr <= old(o.Repr) + (n.Repr - {n})
    ensures forall k :: k in n.children && k !in added ==>
      o.Repr !! n.children[k].Repr && n.children[k].Valid() && n.children[k].tree == old(n.tree).children[k]
  {
    ghost var c0, src, r0, t0, u0 := o.children, n.children, o.Repr, o.tree, n.tree;
    var todo := added;
    ghost var done: set<Key> := {};
    while todo != {}
      invariant done + todo == added && done !! todo
      invariant o.Valid() && n.Spine()
      invariant o.children == c0 + Moved(src, done)
      invariant r0 <= o.Repr <= r0 + (n.Repr - {n})
      invariant forall k :: k in src && k !in done ==>
        o.Repr !! src[k].Repr && src[k].Valid() && src[k].tree == u0.children[k]
      invariant o.tree == Differ.SpliceInserted(t0, u0, done)
      decreases todo
    {
      var k :| k in todo;
      SpliceChild(o, n.children[k], k, src, src.Keys - done - {k});
      MergeOneMore(c0, src, done, k);
      SpliceInsertedAdd(t0, u0, done, k);
      done, todo := done + {k}, todo - {k};
    }
  }

  /** One step of the loop over the common keys in `diff`: `oldNode.children[node1.data] =
      diff(node1, node2)` with `node1` and `node2` the two children under `k`. The new tree's
      children under `rest` and `done` are not touched; those under `rest` also stay apart from the
      old tree. */
  method DiffChild(o: TreeNode, n: TreeNode, k: Key, ghost t0: Tree, ghost rest: set<Key>, ghost done: set<Key>)
    requires o.ChildrenValid() && n.Spine() && n !in o.Repr && o !in n.Repr
    requires k in o.children && k in n.children && k !in rest && rest <= n.children.Keys
    requires n.children[k].Valid() && o.Repr !! n.children[k].Repr && o.children[k].Repr !! n.Repr
    requires k in t0.children && o.children[k].tree == t0.children[k]
    requires forall j :: j in rest ==> o.Repr !! n.children[j].Repr && n.children[j].Valid()
    requires k !in done && done <= n.children.Keys && forall j :: j in done ==> n.children[j].Valid()
    modifies o`children, o`Repr, o.children[k].Repr`children, o.children[k].Repr`Repr, o.children[k].Repr`tree
    modifies (o.children[k].Repr - {o.children[k]})`nodeType
    modifies (n.children[k].Repr - {n.children[k]})`nodeType, n.children[k].Repr`tree
    ensures o.ChildrenValid() && n.Spine() && o.children == old(o.children)
    ensures old(o.Repr) <= o.Repr <= old(o.Repr) + n.children[k].Repr
    ensures o.children[k].tree == Differ.Diff(old(o.children[k].tree), old(n.children[k].tree))
    ensures forall j :: j in o.children && j != k ==>
      o.children[j].tree == old(o.children[j].tree) && o.children[j].Repr == old(o.children[j].Repr)
    ensures forall j :: j in rest ==> o.Repr !! n.children[j].Repr
    ensures forall j :: j in rest + done ==> n.children[j].Valid() && n.children[j].tree == old(n.children[j].tree)
    ensures n.children[k].Valid() && n.children[k].tree == Differ.NewAfter(old(o.children[k].tree), old(n.children[k].tree))
    decreases t0, 0
  {
    var node1, node2 := o.children[k], n.children[k];
    assert forall j :: j in rest + done ==>
      node2.Repr !! n.children[j].Repr && node1.Repr !! n.children[j].Repr && o !in n.children[j].Repr;
    var sub := DiffNodes(node1, node2);
    label Diffed:
    o.children := o.children[node1.data := sub];
    o.Repr := o.Repr + sub.Repr;
    ValidUnchanged@Diffed(node1);
    ValidUnchanged@Diffed(node2);
    forall j | j in o.children && j != k
      ensures o.children[j].Valid() && o.children[j].tree == old(o.children[j].tree) && o.children[j].Repr !! sub.Repr
    {
      ValidUnchanged(o.children[j]);
    }
    forall j | j in rest + done
      ensures n.children[j].Valid() && n.children[j].tree == old(n.children[j].tree)
    {
      ValidUnchanged(n.children[j]);
    }
  }

  /** A node none of whose footprint was written to is still valid, with the same value. */
  twostate lemma ValidUnchanged(x: TreeNode)
    requires old(x.Valid()) && unchanged(x) && unchanged(x.Repr)
    ensures x.Valid() && x.tree == old(x.tree)
  {
  }

  /** The loop over the common keys: each pair of children diffed in turn. `t0` and `u0` are the
      values the two trees had when `diff` was entered, `r0` the old tree's footprint then. The
      node's own `tree` is not yet brought up to date, so it still has the children's old values. */
  method DiffEach(o: TreeNode, n: TreeNode, both: set<Key>, ghost t0: Tree, ghost u0: Tree, ghost r0: set<TreeNode>)
    requires o.ChildrenValid() && n.Spine() && n !in o.Repr && o in r0 && r0 !! n.Repr
    requires both <= o.children.Keys && both <= n.children.Keys && both <= t0.children.Keys && both <= u0.children.Keys
    requires o.tree.children.Keys == o.children.Keys && forall j :: j in o.children ==> o.children[j].tree == o.tree.children[j]
    requires forall k :: k in both ==> o.tree.children[k] == t0.children[k]
    requires forall k :: k in both ==>
      o.children[k].Repr <= r0 - {o} && o.Repr !! n.children[k].Repr && n.children[k].Valid() && n.children[k].tree == u0.children[k]
    modifies o`children, o`Repr, (r0 - {o})`children, (r0 - {o})`Repr, (r0 - {o})`tree, (r0 - {o})`nodeType
    modifies (n.Repr - {n})`nodeType, (n.Repr - {n})`tree
    ensures o.ChildrenValid() && o.children == old(o.children)
    ensures old(o.Repr) <= o.Repr <= old(o.Repr) + (n.Repr - {n})
    ensures forall j :: j in o.children ==>
      o.children[j].tree == if j in both then Differ.Diff(t0.children[j], u0.children[j]) else old(o.tree).children[j]
    ensures n.Spine() && forall j :: j in both ==>
      n.children[j].Valid() && n.children[j].tree == Differ.NewAfter(t0.children[j], u0.children[j])
    decreases t0, 2
  {
    ghost var s := o.tree;
    var todo := both;
    while todo != {}
      invariant todo <= both && o.children == old(o.children) && o.tree == s
      invariant o.ChildrenValid() && n.Spine() && old(o.Repr) <= o.Repr <= old(o.Repr) + (n.Repr - {n})
      invariant forall k :: k in todo ==>
        o.children[k].Repr <= r0 - {o} && o.Repr !! n.children[k].Repr && n.children[k].Valid() && n.children[k].tree == u0.children[k]
      invariant forall j :: j in o.children ==>
        o.children[j].tree == if j in both && j !in todo then Differ.Diff(t0.children[j], u0.children[j]) else s.children[j]
      invariant forall j :: j in both && j !in todo ==>
        n.children[j].Valid() && n.children[j].tree == Differ.NewAfter(t0.children[j], u0.children[j])
      decreases todo
    {
      var k :| k in todo;
      DiffStep(o, n, k, both, todo, s, t0, u0, r0, old(o.Repr));
      todo := todo - {k};
    }
  }

  /** One turn of the loop over the common keys: the pair under `k` diffed, the loop's invariant
      kept for the keys still to do. */
  method DiffStep(o: TreeNode, n: TreeNode, k: Key, both: set<Key>, todo: set<Key>, ghost s: Tree,
                  ghost t0: Tree, ghost u0: Tree, ghost r0: set<TreeNode>, ghost ro: set<TreeNode>)
    requires n !in ro && o in r0 && r0 !! n.Repr && k in todo && todo <= both
    requires both <= o.children.Keys && both <= n.children.Keys && both <= t0.children.Keys && both <= u0.children.Keys
    requires o.tree == s && s.children.Keys == o.children.Keys && forall k :: k in both ==> s.children[k] == t0.children[k]
    requires o.ChildrenValid() && n.Spine() && ro <= o.Repr <= ro + (n.Repr - {n})
    requires forall k :: k in todo ==>
      o.children[k].Repr <= r0 - {o} && o.Repr !! n.children[k].Repr && n.children[k].Valid() && n.children[k].tree == u0.children[k]
    requires forall j :: j in o.children ==>
      o.children[j].tree == if j in both && j !in todo then Differ.Diff(t0.children[j], u0.children[j]) else s.children[j]
    requires forall j :: j in both && j !in todo ==>
      n.children[j].Valid() && n.children[j].tree == Differ.NewAfter(t0.children[j], u0.children[j])
    modifies o`children, o`Repr, (r0 - {o})`children, (r0 - {o})`Repr, (r0 - {o})`tree, (r0 - {o})`nodeType
    modifies (n.Repr - {n})`nodeType, (n.Repr - {n})`tree
    ensures o.children == old(o.children) && o.tree == s
    ensures o.ChildrenValid() && n.Spine() && ro <= o.Repr <= ro + (n.Repr - {n})
    ensures forall j :: j in todo - {k} ==>
      o.children[j].Repr <= r0 - {o} && o.Repr !! n.children[j].Repr && n.children[j].Valid() && n.children[j].tree == u0.children[j]
    ensures forall j :: j in o.children ==>
      o.children[j].tree == if j in both && j !in todo - {k} then Differ.Diff(t0.children[j], u0.children[j]) else s.children[j]
    ensures forall j :: j in both && j !in todo - {k} ==>
      n.children[j].Valid() && n.children[j].tree == Differ.NewAfter(t0.children[j], u0.children[j])
    decreases t0, 1
  {
    ghost var rest, done := todo - {k}, both - todo;
    ghost var oc := o.children;
    DiffChild(o, n, k, t0, rest, done);
    forall j | j in rest
      ensures o.children[j].Repr <= r0 - {o} && o.Repr !! n.children[j].Repr
      ensures n.children[j].Valid() && n.children[j].tree == u0.children[j]
    {
      assert j in rest + done && j != k && j in oc;
    }
    forall j | j in o.children
      ensures o.children[j].tree == if j in both && j !in rest then Differ.Diff(t0.children[j], u0.children[j]) else s.children[j]
    {
      if j != k {
        assert o.children[j].tree == old(o.children[j].tree);
      }
    }
    forall j | j in both && j !in rest
      ensures n.children[j].Valid() && n.children[j].tree == Differ.NewAfter(t0.children[j], u0.children[j])
    {
      if j != k {
        assert j in rest + done;
      }
    }
  }

  /** `diff(oldNode, newNode)` for two nodes that are there: the old node's children only it has
      are tagged Deleted, the new node's children only it has are moved over and tagged Inserted,
      and the children under common keys are diffed, the old node's child staying in place. */
  method DiffNodes(o: TreeNode, n: TreeNode) returns (r: TreeNode)
    requires o.Valid() && n.Valid() && o.Repr !! n.Repr
    modifies o.Repr`children, o.Repr`Repr, o.Repr`tree, (o.Repr - {o})`nodeType
    modifies (n.Repr - {n})`nodeType, n.Repr`tree
    ensures r == o && o.Valid()
    ensures o.tree == Differ.Diff(old(o.tree), old(n.tree))
    ensures n.Valid() && n.tree == Differ.NewAfter(old(o.tree), old(n.tree))
    ensures old(o.Repr) <= o.Repr <= old(o.Repr) + (n.Repr - {n})
    ensures o.children == old(o.children) + Moved(n.children, n.children.Keys - old(o.children).Keys)
    decreases o.tree, 4
  {
    ghost var t0, u0, r0 := o.tree, n.tree, o.Repr;
    var left := o.children.Keys - n.children.Keys;
    var right := n.children.Keys - o.children.Keys;
    var both := o.children.Keys * n.children.Keys;
    assert left == Differ.OnlyInOld(t0, u0) && right == Differ.OnlyInNew(t0, u0) && both == Differ.InBoth(t0, u0);
    DeletePhase(o, n, left, both, r0);
    SplicePhase(o, n, right, both, r0);
    StagedPhases(t0, u0);
    CommonPhase(o, n, both, t0, u0, r0);
    DiffThroughPhases(t0, u0);
    forall k | k in right
      ensures k in o.children && o.children[k] == n.children[k]
    {
      MovedAt(old(o.children), n.children, right, k);
    }
    RelinkNew(o, n, t0, u0);
    r := o;
  }

  /** Brings the ghost value of the new node up to date once `diff` is done with it: its common
      children are what the recursive calls left, the others are shared with the old node. */
  ghost method RelinkNew(o: TreeNode, n: TreeNode, t0: Tree, u0: Tree)
    requires o.Valid() && n.Spine() && o.tree == Differ.Diff(t0, u0) && n !in o.Repr
    requires n.data == u0.key && n.nodeType == u0.kind && n.children.Keys == u0.children.Keys
    requires forall k :: k in n.children ==> n.children[k].data == k
    requires forall k :: k in n.children && k !in t0.children ==> k in o.children && o.children[k] == n.children[k]
    requires forall k :: k in n.children && k in t0.children ==>
      n.children[k].Valid() && n.children[k].tree == Differ.NewAfter(t0.children[k], u0.children[k])
    modifies n`tree
    ensures n.Valid() && n.tree == Differ.NewAfter(t0, u0)
    ensures o.Valid() && o.tree == old(o.tree)
  {
    Differ.NewAfterChildren(t0, u0);
    Differ.NewAfterShared(t0, u0);
    forall k | k in n.children && k !in t0.children
      ensures n.children[k].Valid() && n.children[k].tree == Differ.NewAfter(t0, u0).children[k]
    {
      assert o.tree.children[k] == o.children[k].tree;
    }
    Relink(n, Differ.NewAfter(t0, u0));
  }

  /** The deletion and insertion steps of `diff` in sequence give `Staged`. */
  lemma StagedPhases(o: Tree, n: Tree)
    ensures var d := if Differ.OnlyInOld(o, n) != {} then Differ.MarkDeleted(o, Differ.OnlyInOld(o, n)) else o;
      Differ.Staged(o, n) == if Differ.OnlyInNew(o, n) != {} then Differ.SpliceInserted(d, n, Differ.OnlyInNew(o, n)) else d
    ensures forall k :: k in Differ.InBoth(o, n) ==> k in Differ.Staged(o, n).children && Differ.Staged(o, n).children[k] == o.children[k]
  {
    Differ.EarlyReturnsUnreachable(o, n);
    Differ.StagedChildren(o, n);
  }

  /** The `if left_diff` block of `diff`: the children under `left` tagged Deleted. */
  method DeletePhase(o: TreeNode, n: TreeNode, left: set<Key>, ghost both: set<Key>, ghost r0: set<TreeNode>)
    requires o.Valid() && n.Valid() && o.Repr !! n.Repr && o.Repr == r0 && left <= o.children.Keys
    requires forall k :: k in both ==> k in o.children && o.children[k].Repr <= r0 - {o}
    modifies (o.Repr - {o})`nodeType, o.Repr`tree
    ensures o.Valid() && o.tree == if left != {} then Differ.MarkDeleted(old(o.tree), left) else old(o.tree)
    ensures n.Valid() && o.Repr !! n.Repr && o.Repr == r0 && o.children == old(o.children)
    ensures n.children == old(n.children) && n.tree == old(n.tree)
    ensures forall k :: k in both ==> k in o.children && o.children[k].Repr <= r0 - {o}
  {
    if left != {} {
      DeleteChildren(o, left);
      // the guard of the first early return is false
      assert o.IsRoot() || o.children != map[];
    }
  }

  /** The `if right_diff` block of `diff`: the new node's children under `right` moved over and
      tagged Inserted. The new node's other children are left as they were. */
  method SplicePhase(o: TreeNode, n: TreeNode, right: set<Key>, ghost both: set<Key>, ghost r0: set<TreeNode>)
    requires o.Valid() && n.Valid() && o.Repr !! n.Repr && o.Repr == r0
    requires right <= n.children.Keys && right !! o.children.Keys
    requires forall k :: k in both ==> k in o.children && o.children[k].Repr <= r0 - {o}
    modifies o`children, o`Repr, o`tree, (n.Repr - {n})`nodeType, (n.Repr - {n})`tree
    ensures n.children == old(n.children) && n !in o.Repr && o in r0 && r0 !! n.Repr
    ensures forall k :: k in both ==> k in o.children && o.children[k].Repr <= r0 - {o}
    ensures o.Valid() && o.tree == if right != {} then Differ.SpliceInserted(old(o.tree), old(n.tree), right) else old(o.tree)
    ensures o.children == old(o.children) + Moved(n.children, right)
    ensures r0 <= o.Repr <= r0 + (n.Repr - {n}) && n.Spine()
    ensures forall k :: k in n.children && k !in right ==>
      o.Repr !! n.children[k].Repr && n.children[k].Valid() && n.children[k].tree == old(n.tree).children[k]
  {
    if right != {} {
      SpliceChildren(o, n, right);
      // the guard of the second early return is false
      assert o.IsRoot() || o.children != map[];
    }
  }

  /** The `if intersection` block of `diff`, with the old node's value brought up to date. */
  method CommonPhase(o: TreeNode, n: TreeNode, both: set<Key>, ghost t0: Tree, ghost u0: Tree, ghost r0: set<TreeNode>)
    requires o.Valid() && n.Spine() && n !in o.Repr && o in r0 && r0 !! n.Repr && both == Differ.InBoth(t0, u0)
    requires both <= o.children.Keys && both <= n.children.Keys
    requires forall k :: k in both ==> k in o.tree.children && o.tree.children[k] == t0.children[k]
    requires forall k :: k in both ==> o.children[k].Repr <= r0 - {o}
    requires forall k :: k in both ==>
      o.Repr !! n.children[k].Repr && n.children[k].Valid() && n.children[k].tree == u0.children[k]
    modifies o`children, o`Repr, o`tree, (r0 - {o})`children, (r0 - {o})`Repr, (r0 - {o})`tree, (r0 - {o})`nodeType
    modifies (n.Repr - {n})`nodeType, (n.Repr - {n})`tree
    ensures o.Valid() && o.children == old(o.children)
    ensures old(o.Repr) <= o.Repr <= old(o.Repr) + (n.Repr - {n})
    ensures o.tree == if both != {} then DiffedBoth(old(o.tree), t0, u0) else old(o.tree)
    ensures n.Spine() && forall k :: k in both ==>
      n.children[k].Valid() && n.children[k].tree == Differ.NewAfter(t0.children[k], u0.children[k])
    decreases t0, 3
  {
    if both != {} {
      DiffEach(o, n, both, t0, u0, r0);
      Relink(o, DiffedBoth(o.tree, t0, u0));
    }
  }

  /** `s` with each child under a key both `o` and `n` have replaced by the diff of the two: a name
      for the common-key comprehension in the body of `Differ.Diff`, so that the phase methods can
      state their effect; `DiffThroughPhases` proves the two agree. */
  ghost function DiffedBoth(s: Tree, o: Tree, n: Tree): Tree {
    s.(children := map k | k in s.children :: if k in Differ.InBoth(o, n) then Differ.Diff(o.children[k], n.children[k]) else s.children[k])
  }

  /** `diff` is its three blocks in sequence. */
  lemma DiffThroughPhases(o: Tree, n: Tree)
    ensures Differ.Diff(o, n) == if Differ.InBoth(o, n) != {} then DiffedBoth(Differ.Staged(o, n), o, n) else Differ.Staged(o, n)
  {
    Differ.DiffUnfold(o, n);
  }

  /** The nodes `diff(oldNode, newNode)` may update: nothing unless both nodes are there. */
  ghost function OldSide(oldNode: TreeNode?, newNode: TreeNode?): set<TreeNode>
    reads oldNode
  {
    if oldNode == null || newNode == null then {} else oldNode.Repr
  }

  ghost function OldBelow(oldNode: TreeNode?, newNode: TreeNode?): set<TreeNode>
    reads oldNode
  {
    if oldNode == null || newNode == null then {} else oldNode.Repr - {oldNode}
  }

  ghost function NewBelow(oldNode: TreeNode?, newNode: TreeNode?): set<TreeNode>
    reads newNode
  {
    if oldNode == null || newNode == null then {} else newNode.Repr - {newNode}
  }

  ghost function NewSide(oldNode: TreeNode?, newNode: TreeNode?): set<TreeNode>
    reads newNode
  {
    if oldNode == null || newNode == null then {} else newNode.Repr
  }

  /** `diff(oldNode, newNode)`: a ValueError when a node is missing; otherwise the old node itself,
      updated in place to the diff of the two trees. Neither node's own tag changes, and the new
      node keeps its children; those the old node now shares are retagged Inserted in the new
      tree too. */
  method Diff(oldNode: TreeNode?, newNode: TreeNode?) returns (r: Result<TreeNode>)
    requires oldNode != null ==> oldNode.Valid()
    requires newNode != null ==> newNode.Valid()
    requires oldNode != null && newNode != null ==> oldNode.Repr !! newNode.Repr
    modifies OldSide(oldNode, newNode)`children, OldSide(oldNode, newNode)`Repr, OldSide(oldNode, newNode)`tree
    modifies OldBelow(oldNode, newNode)`nodeType, NewBelow(oldNode, newNode)`nodeType, NewSide(oldNode, newNode)`tree
    ensures r.Failure? <==> oldNode == null || newNode == null
    ensures r.Failure? ==> r.error == ValueError(MissingNodeMessage)
    ensures r.Success? ==> r.value == oldNode && oldNode.Valid()
    ensures r.Success? ==> oldNode.tree == Differ.Diff(old(oldNode.tree), old(newNode.tree))
    ensures r.Success? ==> oldNode.children.Keys == old(oldNode.children.Keys) + old(newNode.children.Keys)
    ensures r.Success? ==> newNode.children == old(newNode.children)
    ensures r.Success? ==> forall k :: k in newNode.children && k !in old(oldNode.children) ==> oldNode.children[k] == newNode.children[k]
    ensures r.Success? ==> forall k :: k in newNode.children && k !in old(oldNode.children) ==>
      newNode.children[k].tree == Retag(old(newNode.children[k].tree), Inserted)
    ensures r.Success? ==> oldNode.nodeType == old(oldNode.nodeType) && newNode.nodeType == old(newNode.nodeType)
    ensures r.Success? ==> newNode.Valid() && newNode.tree == Differ.NewAfter(old(oldNode.tree), old(newNode.tree))
  {
    if oldNode == null || newNode == null {
      return Failure(ValueError(MissingNodeMessage));
    }
    ghost var t0, u0 := oldNode.tree, newNode.tree;
    ghost var c0, m0 := oldNode.children, newNode.children;
    assert t0.children.Keys == c0.Keys && u0.children.Keys == m0.Keys;
    var d := DiffNodes(oldNode, newNode);
    forall k | k in m0 && k !in c0
      ensures m0[k].tree == Retag(old(m0[k].tree), Inserted)
    {
      assert old(m0[k].tree) == u0.children[k];
      Differ.DiffChildren(t0, u0);
      MovedAt(c0, m0, m0.Keys - c0.Keys, k);
      assert oldNode.tree.children[k] == oldNode.children[k].tree;
    }
    r := Success(d);
  }

  /** What the test helpers do: both documents built, diffed and printed from depth 0. The report
      is the diff's report, and it is empty exactly when the two documents build the same tree. */
  method CompareDocuments(expected: map<string, Json>, actual: map<string, Json>) returns (report: seq<Reports.Line>)
    requires Buildable(JDict(expected)) && Buildable(JDict(actual))
    ensures multiset(report) == Reports.Report(Differ.Diff(Builder.FromJson(expected), Builder.FromJson(actual)), 0)
    ensures report == [] <==> Builder.FromJson(expected) == Builder.FromJson(actual)
  {
    var a := CreateTreeFromJson(expected);
    var b := CreateTreeFromJson(actual);
    var r := Diff(a, b);
    report := r.value.Render(0);
    Reports.ReportEmptyIffSameTree(expected, actual);
    assert report == [] <==> multiset(report) == multiset{};
  }
}
