/** What `make_tree` and `create_tree_from_JSON` build, as values. */
module Builder {
  import opened JsonValue
  import opened Trees

  /** The node built for `value` under `key`: a dict gives its entries as children, a list the
      merged entries of its elements, a scalar a single value child keyed by the scalar. */
  function BuildValue(key: Key, value: Json): Tree
    requires Buildable(value)
    decreases value, 3
  {
    match value
    case JDict(f) => Node(key, Unchanged, Entries(f))
    case JList(items) => Node(key, Unchanged, ListEntries(value, |items|))
    case _ => Node(key, Unchanged, map[ScalarKey(value) := Leaf(ScalarKey(value))])
  }

  /** The children a dict contributes: one node per entry, keyed by the entry's key. */
  function Entries(fields: map<string, Json>): map<Key, Tree>
    requires Buildable(JDict(fields))
    decreases JDict(fields), 1
  {
    map k | k in fields :: KStr(k) := BuildValue(KStr(k), fields[k])
  }

  /** The children the first `n` elements of a list contribute, a later entry overwriting an
      earlier one under the same key. */
  function ListEntries(list: Json, n: nat): map<Key, Tree>
    requires list.JList? && n <= |list.items| && Buildable(list)
    decreases list, 1, n
  {
    if n == 0 then map[] else ListEntries(list, n - 1) + ItemEntries(list.items[n - 1])
  }

  /** The children one list element contributes: a dict its entries, a list of dicts their merged
      entries, a scalar nothing. */
  function ItemEntries(item: Json): map<Key, Tree>
    requires Buildable(item)
    requires item.JList? ==> forall j :: 0 <= j < |item.items| ==> item.items[j].JDict?
    decreases item, 2
  {
    match item
    case JDict(f) => Entries(f)
    case JList(inner) => ListEntries(item, |inner|)
    case _ => map[]
  }

  /** `create_tree_from_JSON`: the document's entries under a synthetic root. */
  function FromJson(fields: map<string, Json>): Tree
    requires Buildable(JDict(fields))
  {
    Node(RootKey, Unchanged, Entries(fields))
  }

  lemma EntriesAt(fields: map<string, Json>, k: string)
    requires Buildable(JDict(fields)) && k in fields
    ensures KStr(k) in Entries(fields) && Entries(fields)[KStr(k)] == BuildValue(KStr(k), fields[k])
  {
  }

  /** The children of a dict node are exactly its entries. */
  lemma EntriesKeys(fields: map<string, Json>)
    requires Buildable(JDict(fields))
    ensures forall x :: x in Entries(fields) <==> x.KStr? && x.s in fields
  {
    forall x: Key | x.KStr? && x.s in fields
      ensures x in Entries(fields)
    {
      EntriesAt(fields, x.s);
    }
  }

  /** A freshly built node is stored under its own key and tagged Unchanged all the way down. */
  lemma {:induction false} BuildValueFresh(key: Key, value: Json)
    requires Buildable(value)
    ensures BuildValue(key, value).key == key
    ensures WellKeyed(BuildValue(key, value)) && AllKind(BuildValue(key, value), Unchanged)
    decreases value, 3
  {
    match value
    case JDict(f) => EntriesFresh(f);
    case JList(items) => ListEntriesFresh(value, |items|);
    case _ =>
  }

  /** Every child a dict contributes is stored under its key, Unchanged all the way down. */
  lemma {:induction false} EntriesFresh(fields: map<string, Json>)
    requires Buildable(JDict(fields))
    ensures forall x :: x in Entries(fields) ==>
      Entries(fields)[x].key == x && WellKeyed(Entries(fields)[x]) && AllKind(Entries(fields)[x], Unchanged)
    decreases JDict(fields), 1
  {
    EntriesKeys(fields);
    forall x | x in Entries(fields)
      ensures Entries(fields)[x].key == x && WellKeyed(Entries(fields)[x]) && AllKind(Entries(fields)[x], Unchanged)
    {
      EntriesAt(fields, x.s);
      BuildValueFresh(x, fields[x.s]);
    }
  }

  /** The same for the children a list contributes. */
  lemma {:induction false} ListEntriesFresh(list: Json, n: nat)
    requires list.JList? && n <= |list.items| && Buildable(list)
    ensures forall x :: x in ListEntries(list, n) ==>
      ListEntries(list, n)[x].key == x && WellKeyed(ListEntries(list, n)[x]) && AllKind(ListEntries(list, n)[x], Unchanged)
    decreases list, 1, n
  {
    if n > 0 {
      ListEntriesFresh(list, n - 1);
      ItemEntriesFresh(list.items[n - 1]);
    }
  }

  lemma {:induction false} ItemEntriesFresh(item: Json)
    requires Buildable(item)
    requires item.JList? ==> forall j :: 0 <= j < |item.items| ==> item.items[j].JDict?
    ensures forall x :: x in ItemEntries(item) ==>
      ItemEntries(item)[x].key == x && WellKeyed(ItemEntries(item)[x]) && AllKind(ItemEntries(item)[x], Unchanged)
    decreases item, 2
  {
    match item
    case JDict(f) => EntriesFresh(f);
    case JList(inner) => ListEntriesFresh(item, |inner|);
    case _ =>
  }

  /** The built document: a root labelled "root", every child under its own key, all Unchanged. */
  lemma FromJsonShape(fields: map<string, Json>)
    requires Buildable(JDict(fields))
    ensures FromJson(fields).key == RootKey && IsRoot(FromJson(fields).key)
    ensures WellKeyed(FromJson(fields)) && AllKind(FromJson(fields), Unchanged)
    ensures forall x :: x in FromJson(fields).children <==> x.KStr? && x.s in fields
  {
    RootSentinel();
    EntriesFresh(fields);
    EntriesKeys(fields);
  }

  /** A scalar under `key` gives node `key` with exactly one child, the leaf keyed by the scalar. */
  lemma ScalarNode(key: Key, value: Json)
    requires IsScalar(value)
    ensures BuildValue(key, value).children.Keys == {ScalarKey(value)}
    ensures BuildValue(key, value).children[ScalarKey(value)] == Leaf(ScalarKey(value))
  {
  }

  /** A key belongs to a list node's children exactly when some element contributes it. */
  lemma {:induction false} ListEntriesKeys(list: Json, n: nat, x: Key)
    requires list.JList? && n <= |list.items| && Buildable(list)
    ensures x in ListEntries(list, n) <==> exists i :: 0 <= i < n && x in ItemEntries(list.items[i])
  {
    if n > 0 {
      ListEntriesKeys(list, n - 1, x);
      if x in ItemEntries(list.items[n - 1]) {
        assert 0 <= n - 1 < n && x in ItemEntries(list.items[n - 1]);
      }
    }
  }

  /** The last element that contributes a key decides the child stored under it. */
  lemma {:induction false} ListEntriesLastWins(list: Json, n: nat, i: nat, x: Key)
    requires list.JList? && n <= |list.items| && Buildable(list)
    requires i < n && x in ItemEntries(list.items[i])
    requires forall j :: i < j < n ==> x !in ItemEntries(list.items[j])
    ensures x in ListEntries(list, n) && ListEntries(list, n)[x] == ItemEntries(list.items[i])[x]
  {
    if i < n - 1 {
      ListEntriesLastWins(list, n - 1, i, x);
    }
  }

  /** Scalar elements of a list contribute no children. */
  lemma ScalarItemsDropped(list: Json, n: nat)
    requires list.JList? && n < |list.items| && Buildable(list) && IsScalar(list.items[n])
    ensures ListEntries(list, n + 1) == ListEntries(list, n)
  {
  }
}
