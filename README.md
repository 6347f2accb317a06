# json_compare in Dafny

This is a model of `diff.py` from json_compare, a tool that compares two JSON documents and
reports what changed.

The program builds a tree of `TreeNode` objects from each decoded document:
- each node has a key (`data`), a `children` dictionary keyed by the children's own keys, and a change tag (`node_type`);
- a scalar becomes a node holding one "value child" keyed by the scalar;
- a dict becomes a node whose children are its entries;
- a list becomes a node whose children are the merged entries of its dict elements;
- the whole document hangs under a synthetic `"root"` node.

`diff` then works on the old tree in place:
- children found only in the old tree are tagged Deleted all the way down;
- children found only in the new tree are moved over, as the same objects, and tagged Inserted;
- children under common keys are diffed recursively.

`__str__` prints one indented line per node that is not Unchanged, in pre-order.

The project has two layers:

- **Values** (`json_value.dfy`, `trees.dfy`, `builder.dfy`, `differ.dfy`, `reports.dfy`):
  - decoded JSON values and node keys (`JsonValue`);
  - trees as the datatype `Tree = Node(key, kind, children: map<Key, Tree>)` (`Trees`);
  - the tree a document builds (`Builder`);
  - the tree `diff` computes, written to follow the source's three blocks, early returns included (`Differ.Diff`);
  - what `diff` leaves of the new tree (`Differ.NewAfter`);
  - the report as a multiset of `Line(depth, key, kind)` (`Reports`).

  The lemmas here are about these functions: key-set union, retagging, the propagation invariant, the identity law, and the swap law.
- **The program** (`json_compare.dfy`): the class `TreeNode`, with the fields `data`, `children` and `nodeType`.
  - Every node also has a ghost `tree`, its subtree's value, and a ghost footprint `Repr`.
  - `add_child`, `make_tree`, `create_tree_from_JSON`, `change_node_type` and `diff` are methods that update these objects in place, with loops over the key sets and the list items.
  - `__str__` is a method that reads the objects and updates nothing. It returns its lines in pre-order: the node's own line first, then its children's lines, all deeper.
  - Each method's postcondition ties the new state to the value functions.
  - After `diff`, the old tree's value is `Differ.Diff` of the two trees and the new tree's value is `Differ.NewAfter` of them. This covers the aliasing `diff` creates: the old tree receives the new tree's own child objects, and retagging them changes the new tree too.
- **Scenarios** (`scenarios.dfy`): the documents of the unit tests and what their comparison reports.

## Model

| member | source | states |
|---|---|---|
| JsonCompare.TreeNode.constructor | diff.py:16-20 | A new node holds the given key, has no children and is tagged Unchanged. |
| JsonCompare.TreeNode.AddChild | diff.py:22-27 | The child is stored under its own key, replacing any earlier child under that key; nothing else in the children changes, and the node's value gains the child's value under that key. |
| JsonCompare.TreeNode.IsRoot | diff.py:29-34 | Defines `is_root` on the object: its key is a root key in the sense of `Trees.IsRoot`. |
| Trees.IsRoot | diff.py:29-34 | Defines a root key: a string key whose ASCII lower-casing is `"root"`. |
| Trees.Lower | diff.py:31 | `str.lower` on ASCII: the result has the same length, and each character is the lower-cased character at the same position. |
| Trees.LowerCharIs | diff.py:31 | A character lower-cases to a given lower-case letter exactly when it is that letter or its upper-case form. |
| Trees.RootSentinel | diff.py:29-34 | `"root"` is a root key. A string key is a root key exactly when it has four characters spelling r, o, o, t in any letter case. No non-string key is a root key. |
| JsonCompare.TreeNode.Render | diff.py:36-43 | The printed lines, taken as a multiset, are the node's report. When the node is not Unchanged, the first line is its own line at `level`. Every later line is deeper than `level`, and when the node is Unchanged every line is. |
| JsonCompare.TreeNode.RenderChildren | diff.py:41-42 | The loop over the children yields, as a multiset, the children's reports one level deeper, and every line is deeper than `level`. |
| JsonCompare.TreeNode.RenderChild | diff.py:41-42 | One pass of that loop appends one child's report, keeping every line deeper than `level`. |
| Reports.Report | diff.py:36-43 | Defines the report of a tree at a depth: its own line when it is not Unchanged, plus its children's reports one level deeper. |
| Reports.OwnLines | diff.py:38-40 | Defines the node's own line: one line with its depth, key and tag when it is not Unchanged, none otherwise. |
| Reports.ReportChildren | diff.py:41-42 | Defines what the loop over the children prints: the sum of the reports of the children under the given keys, at the given depth. |
| Reports.Deeper | diff.py:39-42 | Defines "every line from this position on is indented deeper than `depth`". |
| Reports.DeeperAppend | diff.py:41-42 | Appending lines that are all deeper keeps every line after the start position deeper. |
| Reports.DeeperChild | diff.py:38-42 | A child's lines, printed one level deeper, are all deeper than the parent's level, its own first line included. |
| Reports.ReportChildrenAdd | diff.py:41-42 | Adding one more child to the keys done adds exactly that child's report. |
| Reports.ReportChildrenPick | diff.py:41-42 | The children's reports add up the same whichever child is taken first, so iteration order does not change the multiset. |
| Reports.ReportChildrenEmpty | diff.py:41-42 | When every child in the set reports nothing, the children together report nothing. |
| Reports.ReportHasOwnLine | diff.py:38-40 | A node that is not Unchanged has its own line in its report. |
| Reports.ReportIncludesChild | diff.py:41-42 | A child's report, one level deeper, is contained in its parent's report. |
| Reports.ReportOneChild | diff.py:36-43 | When a node and all children but one are Unchanged throughout, its report is that one child's report one level deeper. |
| Reports.ScalarEntryReport | diff.py:38-42 | A scalar entry retagged throughout reports exactly two lines: its key at its depth, and its value one level deeper. |
| Reports.SoleScalarChild | diff.py:36-43 | A node whose only change is one retagged scalar child reports exactly that child's two lines. |
| Reports.ReportEmptyIff | diff.py:36-43 | The report is empty exactly when every node of the tree is Unchanged. |
| JsonCompare.ChangeNodeType | diff.py:49-52 | The node's subtree becomes the same subtree with every node retagged; only tags change. |
| JsonCompare.RetagEach | diff.py:51-52 | The loop over the children retags every child's subtree throughout. |
| JsonCompare.RetagChild | diff.py:52 | One recursive call retags one child's subtree, and every other child keeps its value. |
| JsonCompare.SetTag | diff.py:50 | Writing the node's tag, once its children carry their final values, leaves the node holding exactly the given subtree with that tag. |
| Trees.Retag | diff.py:49-52 | Defines the tree with every node given the new tag. |
| Trees.RetagShape | diff.py:49-52 | Retagging keeps every key and the whole child structure, puts the new tag on every node, and keeps each child stored under its own key. |
| Trees.RetagUnique | diff.py:49-52 | Conversely, a tree of the same shape with the new tag on every node is the retagged tree. |
| Trees.AllKindConsistent | diff.py:49-52 | A tree tagged one way throughout satisfies the propagation invariant, and has no Updated node unless the tag is Updated. |
| Trees.SwapRetag | diff.py:55-60 | Swapping Inserted and Deleted in a retagged tree is retagging with the swapped tag. |
| JsonCompare.MakeInserted | diff.py:55-56 | The subtree is retagged Inserted throughout. |
| JsonCompare.MakeDeleted | diff.py:59-60 | The subtree is retagged Deleted throughout. |
| JsonCompare.Diff | diff.py:67-92 | Fails with the ValueError message exactly when a node is missing. Otherwise it returns the old node object itself, whose value is the diff of the two trees and whose children keys are the union of both. Only-new children are the new tree's own objects, retagged Inserted in both trees. Neither node's own tag changes, the new node keeps its children, and the new tree's value is what `diff` leaves of it. |
| JsonCompare.DiffNodes | diff.py:71-92 | The old node's value becomes the diff of the two trees, and the new node's value becomes what `diff` leaves of it. The old node's children are its old children plus the new node's children under the only-new keys, and it gains no nodes beyond the new tree's. |
| JsonCompare.DeletePhase | diff.py:77-81 | The first block: when there are only-old keys, those children are retagged Deleted; otherwise nothing changes. The new tree is untouched. |
| JsonCompare.DeleteChildren | diff.py:77-79 | Every child under an only-old key is retagged Deleted throughout, and nothing else changes. |
| JsonCompare.DeleteEach | diff.py:78-79 | The loop retags each child under the given keys Deleted throughout, and every other child keeps its value. |
| JsonCompare.DeleteChild | diff.py:79 | One pass of that loop retags one child Deleted throughout, and every other child keeps its value. |
| JsonCompare.SplicePhase | diff.py:82-87 | The second block: when there are only-new keys, the new node's children under them are stored in the old node as the same objects, retagged Inserted; otherwise nothing changes. The new node's other children are untouched. |
| JsonCompare.SpliceChildren | diff.py:82-85 | The new node's children under the only-new keys are stored in the old node as the same objects, retagged Inserted; the other children of the new node are untouched. |
| JsonCompare.SpliceChild | diff.py:84-85 | One pass of that loop stores one object under its key, retags it Inserted, and leaves the not yet moved children untouched. |
| JsonCompare.SpliceInsertedAdd | diff.py:84-85 | Moving one more child over extends the value of the spliced children by that child retagged Inserted. |
| JsonCompare.CommonPhase | diff.py:88-90 | The third block: every child under a common key is replaced by the diff of the two children, the other children keep their values, and each common child of the new tree becomes what `diff` leaves of it. |
| JsonCompare.DiffEach | diff.py:88-90 | The loop over the common keys: each common child of the old tree becomes the diff of the two children, the rest keep their values, and each common child of the new tree becomes what `diff` leaves of it. |
| JsonCompare.DiffStep | diff.py:89-90 | One pass of that loop does the same for one common key and keeps the loop's invariant for the rest. |
| JsonCompare.DiffChild | diff.py:90 | One recursive call: the old child's value becomes the diff of the two children, the new child's value becomes what `diff` leaves of it, and every other child keeps its value. |
| JsonCompare.ValidUnchanged | diff.py:90 | A node whose fields and footprint did not change keeps its validity and its value. |
| JsonCompare.RelinkNew | diff.py:82-92 | The new node's value, recomputed from its children after the three blocks, is what `diff` leaves of the new tree. The old node is untouched. |
| JsonCompare.StagedPhases | diff.py:77-87 | The staged tree is the first block's result followed by the second's, and common children are still the old ones. |
| JsonCompare.DiffThroughPhases | diff.py:77-92 | `diff` is the staged tree followed by the third block, or the staged tree itself when there are no common keys. |
| Differ.Diff | diff.py:67-92 | Defines the diff of two trees, following the three blocks and both early returns as written. |
| Differ.OnlyInOld | diff.py:73 | Defines `left_diff`: the keys of the old node's children that the new node lacks. |
| Differ.OnlyInNew | diff.py:74 | Defines `right_diff`: the keys of the new node's children that the old node lacks. |
| Differ.InBoth | diff.py:75 | Defines `intersection`: the keys both nodes have children under. |
| Differ.EarlyReturn | diff.py:80-86 | Defines the guard of both early returns (lines 80 and 86): the node is not a root and has no children left. |
| Differ.Staged | diff.py:77-87 | Defines the tree after the first two blocks, including the first early return. |
| Differ.MarkDeleted | diff.py:77-79 | Defines the first block's effect: the children under the given keys retagged Deleted. |
| Differ.SpliceInserted | diff.py:82-85 | Defines the second block's effect: the new tree's children under the given keys added, retagged Inserted. |
| Differ.EarlyReturnsUnreachable | diff.py:77-87 | After the deletion loop the old node still has children, and after the insertion loop it has at least one, so neither early return can fire. |
| Differ.StagedChildren | diff.py:77-87 | After the deletion and insertion blocks, the children keys are the union of both sets, only-old children are retagged Deleted, only-new children are the new ones retagged Inserted, and the common children are unchanged. |
| Differ.DiffUnfold | diff.py:67-92 | `diff` is the two staged blocks followed by the recursive diff of the common children, since the early returns never fire. |
| Differ.DiffChildren | diff.py:71-92 | The result keeps the old node's key and tag. Its children keys are the union of both key sets: only-old subtrees are tagged Deleted throughout, only-new subtrees are the new ones tagged Inserted throughout, and common children are their recursive diffs. |
| Differ.DiffWellKeyed | diff.py:84-90 | If both inputs store every child under its own key, so does the diff. |
| Differ.DiffConsistent | diff.py:77-90 | Diffing a freshly built old tree gives a tree where everything below an Inserted or Deleted node carries that tag, and no node is Updated. |
| Differ.DiffSelf | diff.py:67-92 | A tree diffed against an equal tree comes out unchanged. |
| Differ.DiffSwap | diff.py:73-85 | For two freshly built trees, swapping the documents swaps every Inserted and Deleted tag and changes nothing else. |
| Differ.DiffUnchangedIffEqual | diff.py:67-92 | For two freshly built trees, the diff leaves every node Unchanged exactly when the trees are equal. |
| Differ.NewAfter | diff.py:82-90 | Defines what `diff` leaves of the new tree: the same tree, except that the subtrees only it has, at every level reached through common keys, are retagged Inserted. |
| Differ.NewAfterChildren | diff.py:82-90 | The new tree keeps its key, tag and children keys. A child only it has is retagged Inserted, and a common child is what `diff` leaves of it. |
| Differ.NewAfterShape | diff.py:82-90 | `diff` changes no key and no structure of the new tree, and keeps every child stored under its own key. |
| Differ.NewAfterShared | diff.py:84-85 | Every child the old tree took over has the same value in both trees after `diff`. |
| Differ.NewAfterSelf | diff.py:67-92 | A tree compared with an equal tree is left unchanged. |
| Differ.NewAfterConsistent | diff.py:82-90 | A freshly built new tree still satisfies the propagation invariant after `diff`, and has no Updated node. |
| JsonCompare.MakeTree | diff.py:95-111 | The parent gains one child per entry of the dict, replacing any child under the same key; each child is the node the entry builds. |
| JsonCompare.AddEntry | diff.py:96-111 | One pass of that loop adds the node one entry builds under the entry's key, as fresh objects. |
| JsonCompare.EntriesUnderAdd | diff.py:96-111 | Adding one more entry to the entries done extends their children by that entry's node. |
| JsonCompare.BuildNode | diff.py:97-110 | The node built for one entry is the value-level build of that entry. |
| JsonCompare.MergeList | diff.py:100-107 | A list node's children are the entries of its dict elements (and of the dicts in its nested lists), in list order, a later element overwriting an earlier one. |
| JsonCompare.MergeItem | diff.py:102-107 | One list element adds its entries to the node: a dict its fields, a list of dicts their merged fields, a scalar nothing. |
| JsonCompare.MergeDicts | diff.py:105-107 | A nested list adds the merged entries of its dicts, in order. |
| JsonCompare.MergeDict | diff.py:106-107 | One dict of a nested list adds its entries, a later one overwriting an earlier one. |
| JsonCompare.AddValueChild | diff.py:108-110 | A scalar entry's node gets exactly one child, the leaf keyed by the scalar. |
| Builder.BuildValue | diff.py:97-110 | Defines the node built for one entry: a dict gives its entries, a list the merged entries of its elements, a scalar one value child. |
| Builder.Entries | diff.py:96-111 | Defines the children a dict contributes: one built node per field, under the field's key. |
| Builder.ListEntries | diff.py:102-107 | Defines the children the first n list elements contribute, a later one overwriting an earlier one. |
| Builder.ItemEntries | diff.py:103-107 | Defines the children one list element contributes: a dict its entries, a list of dicts their merged entries, a scalar nothing. |
| Builder.FromJson | diff.py:114-117 | Defines the document's tree: its entries under the `"root"` node. |
| Builder.EntriesAt | diff.py:96-111 | Each field of a dict gives a child under its key, the node that field builds. |
| Builder.ScalarNode | diff.py:108-110 | A scalar under a key builds a node whose only child is the leaf keyed by the scalar. |
| JsonValue.ScalarKey | diff.py:109-110 | The key of the value child a scalar builds, `TreeNode(json[key])`; it is a string key exactly when the scalar is a string. |
| Builder.ListEntriesKeys | diff.py:102-107 | A key is among a list node's children exactly when some element contributes it. |
| Builder.ListEntriesLastWins | diff.py:102-107 | The last element that contributes a key decides the child stored under it. |
| Builder.ScalarItemsDropped | diff.py:102-107 | A scalar list element contributes no children. |
| Builder.EntriesKeys | diff.py:96-111 | A dict node's children keys are exactly the dict's keys. |
| Builder.BuildValueFresh | diff.py:95-111 | A built node is stored under its own key, every child is stored under its own key, and every node is Unchanged. |
| Builder.EntriesFresh | diff.py:96-111 | Every child a dict contributes is stored under its key and is Unchanged throughout. |
| Builder.ListEntriesFresh | diff.py:102-107 | Every child a list contributes is stored under its key and is Unchanged throughout. |
| Builder.ItemEntriesFresh | diff.py:103-107 | Every child one list element contributes is stored under its key and is Unchanged throughout. |
| JsonCompare.CreateTreeFromJson | diff.py:114-117 | The returned root, made of fresh objects, holds the tree the document builds. |
| Builder.FromJsonShape | diff.py:114-117 | The built document is a root keyed `"root"`; children are exactly the document's keys, each stored under its own key, and every node is Unchanged. |
| JsonCompare.CompareDocuments | test.py:16-33 | Building, diffing and printing two documents yields the diff's report, and the report is empty exactly when the two documents build the same tree. |
| Reports.ReportEmptyIffSameTree | test.py:25-33 | The report of two documents is empty exactly when they build the same tree. |
| Reports.IdentityLaw | test.py:98-103 | A document compared with itself reports nothing. |
| Scenarios.TrivialEqualReport | test.py:98-99 | `dict(val=42)` against itself reports nothing. |
| Scenarios.EqualTreesReport | test.py:101-103 | `{'foo': ['bar', 3, 1.2], 'bipples': None}` against an equal document reports nothing. |
| Scenarios.OnlyBDiffers | test.py:105-111 | Two documents that agree except under `b`, where each holds a one-dict list, diff to an Unchanged root whose only changed child is the diff of the two `b` nodes. |
| Scenarios.OnlyBReport | test.py:105-111 | The report of two such documents is the report of the two `b` nodes' diff, one level down. |
| Scenarios.DocBuildable | test.py:105-125 | The test documents `dict(a=1, b=[inner])` can be built, with the one-dict list stored under `b`. |
| Scenarios.DocReport | test.py:105-125 | For `dict(a=1, b=[fa])` against `dict(a=1, b=[fb])`, the report is that of the two `b` nodes' diff. |
| Scenarios.SoleOldField | diff.py:77-79 | Two inner dicts that differ only by one integer field of the old one diff to Unchanged throughout, except that field, retagged Deleted; the report is exactly that field and its value. |
| Scenarios.SoleNewField | diff.py:82-85 | The same with the field in the new dict: the field is retagged Inserted, and the report is exactly that field and its value. |
| Scenarios.OldFieldLines | diff.py:77-79 | A field only in the old inner dict is reported Deleted at depth 2, and its value at depth 3. |
| Scenarios.NewFieldLines | diff.py:82-85 | A field only in the new inner dict is reported Inserted at depth 2, and its value at depth 3. |
| Scenarios.DocFieldLines | test.py:105-111 | Two documents whose inner dicts each have a field the other lacks report both fields and their values, as Deleted and Inserted. |
| Scenarios.DocOldFieldReport | test.py:113-118 | When the old inner dict has one more integer field, the report is exactly that field and its value, Deleted. |
| Scenarios.DocNewFieldReport | test.py:120-125 | When the new inner dict has one more integer field, the report is exactly that field and its value, Inserted. |
| Scenarios.UnequalTreesReport | test.py:105-111 | The report holds `'y'` and `11` Deleted and `'z'` and `11` Inserted. |
| Scenarios.LongerExpectedReport | test.py:113-118 | The report is exactly `'z'` at depth 2 and `12` at depth 3, both Deleted. |
| Scenarios.LongerActualReport | test.py:120-125 | The report is exactly `'z'` at depth 2 and `12` at depth 3, both Inserted. |

## Left out

- `main` (diff.py:120-155): argument parsing, file access, JSON decoding and `print` are I/O. The command-line and file-based tests (test.py:50-96) depend on fixture files that are not part of this model.
- JSON decoding: inputs are already-decoded values (`JsonValue.Json`), a mapping at the top level. Floats are opaque literals used only as keys.
- Python key equality: keys are compared structurally here, so the model differs from Python wherever Python's `==` on keys is not structural:
  - `True == 1 == 1.0` share one dictionary slot in Python, so a change from `1` to `True` that Python misses is reported here as a change.
  - Floats are kept as their literals, so `1.0` against `1.00` or `1e0` is a change here, while Python finds them equal and reports nothing.
  - `0.0` against `-0.0` is likewise a change here, while Python finds them equal.
  - Two `NaN` objects made separately (two `float('nan')` calls in hand-built dicts) are unequal keys in Python, so Python reports them Deleted and Inserted, and the model reports nothing. A decoded document is not affected: Python's JSON decoder returns one shared `NaN` object, and dictionary lookup tests identity first, so Python also reports nothing, as the model does.
- The list branch of `add_child` (diff.py:23-25): `make_tree` never builds a node whose key is a list, so that branch is dead.
- Nested-list elements that are not dicts (diff.py:105-107): `make_tree(k, node)` runs on each element `k` of a nested list, and `Buildable` excludes every input where `k` is not a dict. Such an input is never taken:
  - an empty list or string does nothing, so `{"a": [[[]]]}` gives `a` no children;
  - a list of in-range integers indexes itself, so `{"a": [[[0]]]}` gives `a` a child `0` holding the value child `0`;
  - out-of-range integers raise `IndexError`;
  - any other element raises `TypeError`.
- `make_updated` and the `Updated` tag (diff.py:13, diff.py:63-64): declared but never produced. `Differ.DiffConsistent` proves no node comes out Updated.
- `repr` formatting and tabs in `__str__`: a report line is the triple (depth, key, tag), not text.
- JsonCompare.TreeNode.Render: sibling order is not modelled. The report is stated as a multiset of lines plus the pre-order facts (own line first, the rest deeper), because the children are a map here, not an insertion-ordered dictionary.
- JsonCompare.Diff: requires the two trees to share no `TreeNode` objects. Python also accepts aliased arguments, such as `diff(t, t)`. The identity law is stated for two separately built trees, as the tests build them.
- JsonCompare.DiffNodes: the early returns (diff.py:80-81, diff.py:86-87) are not code paths. `Differ.Diff` keeps them as written, `Differ.EarlyReturnsUnreachable` proves their guards false, and the method checks the negated guard.
- JsonCompare.DiffEach: the list of node pairs built at diff.py:89 is not materialised. The loop takes the common keys one at a time, and the pairs are read from both children maps.
- JsonCompare.ChangeNodeType: the node's own tag is written after its children's rather than before. No child's footprint holds the node, so the final state is the same.
- `is_root` (diff.py:29-34): `str(data).lower()` is modelled on string keys with ASCII lower-casing. No other key prints as `root`, and the predicate only guards the unreachable early returns.
- The test helpers' `any(d in str(diffs) ...)` substring check (test.py:16-23): the scenario lemmas state that every expected line is in the report, which is stronger than "at least one".
