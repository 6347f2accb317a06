/** Concrete documents from the tests, and what their comparison reports. */
module Scenarios {
  import opened JsonValue
  import opened Trees
  import Builder
  import Differ
  import Reports

  /** `dict(a=1, b=[inner])`, the shape of both documents of `test_unequal_trees`. */
  function Doc(inner: map<string, Json>): map<string, Json> {
    map["a" := JInt(1), "b" := JList([JDict(inner)])]
  }

  /** The inner dict of the old document, `dict(x=10, y=11)`. */
  function OldFields(): map<string, Json> {
    map["x" := JInt(10), "y" := JInt(11)]
  }

  /** The inner dict of the new document, `dict(x=10, z=11)`. */
  function NewFields(): map<string, Json> {
    map["x" := JInt(10), "z" := JInt(11)]
  }

  /** The inner dict of the longer document, `dict(x=10, y=11, z=12)`. */
  function LongerFields(): map<string, Json> {
    map["x" := JInt(10), "y" := JInt(11), "z" := JInt(12)]
  }

  /** The node a one-dict list under `b` builds: the dict's entries. */
  lemma {:induction false} ListOfOneDict(fields: map<string, Json>)
    requires Buildable(JDict(fields))
    ensures Buildable(JList([JDict(fields)]))
    ensures Builder.BuildValue(KStr("b"), JList([JDict(fields)])) == Node(KStr("b"), Unchanged, Builder.Entries(fields))
  {
    var list := JList([JDict(fields)]);
    assert Builder.ListEntries(list, 1) == Builder.ListEntries(list, 0) + Builder.ItemEntries(list.items[0]);
  }

  /** Such a document can be built, with the one-dict list under `b`. */
  lemma {:induction false} DocBuildable(inner: map<string, Json>)
    requires Buildable(JDict(inner))
    ensures Buildable(JDict(Doc(inner)))
    ensures "b" in Doc(inner) && Doc(inner)["b"] == JList([JDict(inner)])
  {
    ListOfOneDict(inner);
    var d := Doc(inner);
    forall k | k in d
      ensures Buildable(d[k])
    {
      if k == "b" {
        assert d[k] == JList([JDict(inner)]);
      } else {
        assert d[k] == JInt(1);
      }
    }
  }

  /** Two documents that agree everywhere but under `b`, where each holds a one-dict list: the
      root of their diff is Unchanged throughout except for its child `b`, the diff of the two
      `b` nodes. */
  lemma {:induction false} OnlyBDiffers(a: map<string, Json>, b: map<string, Json>, fa: map<string, Json>, fb: map<string, Json>)
    requires Buildable(JDict(fa)) && Buildable(JDict(fb)) && Buildable(JDict(a)) && Buildable(JDict(b))
    requires "b" in a && "b" in b && a["b"] == JList([JDict(fa)]) && b["b"] == JList([JDict(fb)])
    requires forall k :: k in a && k != "b" ==> k in b && b[k] == a[k]
    requires forall k :: k in b ==> k in a
    ensures var d := Differ.Diff(Builder.FromJson(a), Builder.FromJson(b));
      d.kind == Unchanged && KStr("b") in d.children &&
      d.children[KStr("b")] == Differ.Diff(Node(KStr("b"), Unchanged, Builder.Entries(fa)), Node(KStr("b"), Unchanged, Builder.Entries(fb))) &&
      forall j :: j in d.children && j != KStr("b") ==> AllKind(d.children[j], Unchanged)
  {
    var o, n := Builder.FromJson(a), Builder.FromJson(b);
    var d := Differ.Diff(o, n);
    ListOfOneDict(fa);
    ListOfOneDict(fb);
    Builder.EntriesAt(a, "b");
    Builder.EntriesAt(b, "b");
    Builder.EntriesKeys(a);
    Builder.EntriesKeys(b);
    Builder.EntriesFresh(a);
    Differ.DiffChildren(o, n);
    forall j | j in d.children && j != KStr("b")
      ensures AllKind(d.children[j], Unchanged)
    {
      Builder.EntriesAt(a, j.s);
      Builder.EntriesAt(b, j.s);
      Differ.DiffSelf(o.children[j]);
    }
  }

  /** The `b` nodes of two inner dicts that differ only by `k: v`, present in the old one: their
      diff is Unchanged throughout except for `k`, retagged Deleted. */
  lemma {:induction false} SoleOldField(fa: map<string, Json>, fb: map<string, Json>, k: string, v: int)
    requires Buildable(JDict(fb)) && k !in fb && fa == fb[k := JInt(v)]
    ensures Buildable(JDict(fa))
    ensures var d := Differ.Diff(Node(KStr("b"), Unchanged, Builder.Entries(fa)), Node(KStr("b"), Unchanged, Builder.Entries(fb)));
      d.kind == Unchanged && KStr(k) in d.children && d.children[KStr(k)] == Retag(Builder.BuildValue(KStr(k), JInt(v)), Deleted) &&
      forall j :: j in d.children && j != KStr(k) ==> AllKind(d.children[j], Unchanged)
    ensures Reports.Report(Differ.Diff(Node(KStr("b"), Unchanged, Builder.Entries(fa)), Node(KStr("b"), Unchanged, Builder.Entries(fb))), 1) ==
      multiset{Reports.Line(2, KStr(k), Deleted), Reports.Line(3, KInt(v), Deleted)}
  {
    assert Buildable(fa[k]);
    assert Buildable(JDict(fa));
    var ob, nb := Node(KStr("b"), Unchanged, Builder.Entries(fa)), Node(KStr("b"), Unchanged, Builder.Entries(fb));
    Builder.EntriesKeys(fa);
    Builder.EntriesKeys(fb);
    Builder.EntriesFresh(fb);
    Builder.EntriesAt(fa, k);
    Differ.DiffChildren(ob, nb);
    var d := Differ.Diff(ob, nb);
    forall j | j in d.children && j != KStr(k)
      ensures AllKind(d.children[j], Unchanged)
    {
      Builder.EntriesAt(fa, j.s);
      Builder.EntriesAt(fb, j.s);
      Differ.DiffSelf(nb.children[j]);
    }
    assert ScalarKey(JInt(v)) == KInt(v);
    Reports.SoleScalarChild(d, KStr(k), JInt(v), Deleted, 1, 2, 3);
  }

  /** The same with `k: v` present in the new dict only: `k` retagged Inserted. */
  lemma {:induction false} SoleNewField(fa: map<string, Json>, fb: map<string, Json>, k: string, v: int)
    requires Buildable(JDict(fa)) && k !in fa && fb == fa[k := JInt(v)]
    ensures Buildable(JDict(fb))
    ensures var d := Differ.Diff(Node(KStr("b"), Unchanged, Builder.Entries(fa)), Node(KStr("b"), Unchanged, Builder.Entries(fb)));
      d.kind == Unchanged && KStr(k) in d.children && d.children[KStr(k)] == Retag(Builder.BuildValue(KStr(k), JInt(v)), Inserted) &&
      forall j :: j in d.children && j != KStr(k) ==> AllKind(d.children[j], Unchanged)
    ensures Reports.Report(Differ.Diff(Node(KStr("b"), Unchanged, Builder.Entries(fa)), Node(KStr("b"), Unchanged, Builder.Entries(fb))), 1) ==
      multiset{Reports.Line(2, KStr(k), Inserted), Reports.Line(3, KInt(v), Inserted)}
  {
    assert Buildable(fb[k]);
    assert Buildable(JDict(fb));
    var ob, nb := Node(KStr("b"), Unchanged, Builder.Entries(fa)), Node(KStr("b"), Unchanged, Builder.Entries(fb));
    Builder.EntriesKeys(fa);
    Builder.EntriesKeys(fb);
    Builder.EntriesFresh(fa);
    Builder.EntriesAt(fb, k);
    Differ.DiffChildren(ob, nb);
    var d := Differ.Diff(ob, nb);
    forall j | j in d.children && j != KStr(k)
      ensures AllKind(d.children[j], Unchanged)
    {
      Builder.EntriesAt(fa, j.s);
      Builder.EntriesAt(fb, j.s);
      assert nb.children[j] == ob.children[j];
      Differ.DiffSelf(ob.children[j]);
    }
    assert ScalarKey(JInt(v)) == KInt(v);
    Reports.SoleScalarChild(d, KStr(k), JInt(v), Inserted, 1, 2, 3);
  }

  /** The report of two such documents is the report of the diff of their two `b` nodes, one
      level down. */
  lemma {:induction false} OnlyBReport(a: map<string, Json>, b: map<string, Json>, fa: map<string, Json>, fb: map<string, Json>)
    requires Buildable(JDict(fa)) && Buildable(JDict(fb)) && Buildable(JDict(a)) && Buildable(JDict(b))
    requires "b" in a && "b" in b && a["b"] == JList([JDict(fa)]) && b["b"] == JList([JDict(fb)])
    requires forall k :: k in a && k != "b" ==> k in b && b[k] == a[k]
    requires forall k :: k in b ==> k in a
    ensures Reports.Report(Differ.Diff(Builder.FromJson(a), Builder.FromJson(b)), 0) ==
      Reports.Report(Differ.Diff(Node(KStr("b"), Unchanged, Builder.Entries(fa)), Node(KStr("b"), Unchanged, Builder.Entries(fb))), 1)
  {
    OnlyBDiffers(a, b, fa, fb);
    Reports.ReportOneChild(Differ.Diff(Builder.FromJson(a), Builder.FromJson(b)), KStr("b"), 0, 1);
  }

  /** For `dict(a=1, b=[fa])` against `dict(a=1, b=[fb])`, the report is that of the two `b`
      nodes, one level down. */
  lemma {:induction false} DocReport(fa: map<string, Json>, fb: map<string, Json>)
    requires Buildable(JDict(fa)) && Buildable(JDict(fb))
    ensures Buildable(JDict(Doc(fa))) && Buildable(JDict(Doc(fb)))
    ensures Reports.Report(Differ.Diff(Builder.FromJson(Doc(fa)), Builder.FromJson(Doc(fb))), 0) ==
      Reports.Report(Differ.Diff(Node(KStr("b"), Unchanged, Builder.Entries(fa)), Node(KStr("b"), Unchanged, Builder.Entries(fb))), 1)
  {
    DocBuildable(fa);
    DocBuildable(fb);
    OnlyBReport(Doc(fa), Doc(fb), fa, fb);
  }

  /** A field `k: v` only in the old inner dict: the report of the two `b` nodes holds `k` and
      its value, tagged Deleted. */
  lemma {:induction false} OldFieldLines(fa: map<string, Json>, fb: map<string, Json>, k: string, v: int)
    requires Buildable(JDict(fa)) && Buildable(JDict(fb)) && k in fa && k !in fb && fa[k] == JInt(v)
    ensures var r := Reports.Report(Differ.Diff(Node(KStr("b"), Unchanged, Builder.Entries(fa)), Node(KStr("b"), Unchanged, Builder.Entries(fb))), 1);
      Reports.Line(2, KStr(k), Deleted) in r && Reports.Line(3, KInt(v), Deleted) in r
  {
    var ob, nb := Node(KStr("b"), Unchanged, Builder.Entries(fa)), Node(KStr("b"), Unchanged, Builder.Entries(fb));
    Builder.EntriesKeys(fb);
    Builder.EntriesAt(fa, k);
    Differ.DiffChildren(ob, nb);
    Reports.ReportIncludesChild(Differ.Diff(ob, nb), KStr(k), 1, 2);
    Reports.ScalarEntryReport(KStr(k), JInt(v), Deleted, 2, 3);
  }

  /** A field `k: v` only in the new inner dict: `k` and its value, tagged Inserted. */
  lemma {:induction false} NewFieldLines(fa: map<string, Json>, fb: map<string, Json>, k: string, v: int)
    requires Buildable(JDict(fa)) && Buildable(JDict(fb)) && k !in fa && k in fb && fb[k] == JInt(v)
    ensures var r := Reports.Report(Differ.Diff(Node(KStr("b"), Unchanged, Builder.Entries(fa)), Node(KStr("b"), Unchanged, Builder.Entries(fb))), 1);
      Reports.Line(2, KStr(k), Inserted) in r && Reports.Line(3, KInt(v), Inserted) in r
  {
    var ob, nb := Node(KStr("b"), Unchanged, Builder.Entries(fa)), Node(KStr("b"), Unchanged, Builder.Entries(fb));
    Builder.EntriesKeys(fa);
    Builder.EntriesAt(fb, k);
    Differ.DiffChildren(ob, nb);
    Reports.ReportIncludesChild(Differ.Diff(ob, nb), KStr(k), 1, 2);
    Reports.ScalarEntryReport(KStr(k), JInt(v), Inserted, 2, 3);
  }

  /** `dict(a=1, b=[fa])` against `dict(a=1, b=[fb])`, where `fa` is `fb` with one more integer
      field `k: v`: the report is exactly `k` and its value, tagged Deleted. */
  lemma {:induction false} DocOldFieldReport(fa: map<string, Json>, fb: map<string, Json>, k: string, v: int)
    requires Buildable(JDict(fb)) && k !in fb && fa == fb[k := JInt(v)]
    ensures Buildable(JDict(Doc(fa))) && Buildable(JDict(Doc(fb)))
    ensures Reports.Report(Differ.Diff(Builder.FromJson(Doc(fa)), Builder.FromJson(Doc(fb))), 0) ==
      multiset{Reports.Line(2, KStr(k), Deleted), Reports.Line(3, KInt(v), Deleted)}
  {
    SoleOldField(fa, fb, k, v);
    DocReport(fa, fb);
  }

  /** The same where `fb` has the one more field: exactly `k` and its value, tagged Inserted. */
  lemma {:induction false} DocNewFieldReport(fa: map<string, Json>, fb: map<string, Json>, k: string, v: int)
    requires Buildable(JDict(fa)) && k !in fa && fb == fa[k := JInt(v)]
    ensures Buildable(JDict(Doc(fa))) && Buildable(JDict(Doc(fb)))
    ensures Reports.Report(Differ.Diff(Builder.FromJson(Doc(fa)), Builder.FromJson(Doc(fb))), 0) ==
      multiset{Reports.Line(2, KStr(k), Inserted), Reports.Line(3, KInt(v), Inserted)}
  {
    SoleNewField(fa, fb, k, v);
    DocReport(fa, fb);
  }

  /** `dict(a=1, b=[fa])` against `dict(a=1, b=[fb])`, where `gone: u` is only in `fa` and
      `added: w` only in `fb`: the report holds both fields and their values, tagged Deleted and
      Inserted respectively. */
  lemma {:induction false} DocFieldLines(fa: map<string, Json>, fb: map<string, Json>, gone: string, u: int, added: string, w: int)
    requires Buildable(JDict(fa)) && Buildable(JDict(fb))
    requires gone in fa && gone !in fb && fa[gone] == JInt(u)
    requires added !in fa && added in fb && fb[added] == JInt(w)
    ensures Buildable(JDict(Doc(fa))) && Buildable(JDict(Doc(fb)))
    ensures var r := Reports.Report(Differ.Diff(Builder.FromJson(Doc(fa)), Builder.FromJson(Doc(fb))), 0);
      Reports.Line(2, KStr(gone), Deleted) in r && Reports.Line(3, KInt(u), Deleted) in r &&
      Reports.Line(2, KStr(added), Inserted) in r && Reports.Line(3, KInt(w), Inserted) in r
  {
    DocReport(fa, fb);
    OldFieldLines(fa, fb, gone, u);
    NewFieldLines(fa, fb, added, w);
  }

  // The lemmas for the tests below take the test documents as parameters pinned down by their
  // `requires`, instead of writing the literal dicts into the `ensures`. They state the same fact
  // about the same documents. The parameters keep the literal maps out of the postcondition, so
  // the verifier unfolds them once, in the single lemma call of each body, and not at every use.

  /** `test_unequal_trees`: the report holds `'y' - (Deleted)`, `11 - (Deleted)`,
      `'z' - (Inserted)` and `11 - (Inserted)`, each at its depth. */
  lemma {:induction false} UnequalTreesReport(fa: map<string, Json>, fb: map<string, Json>)
    requires fa == OldFields() && fb == NewFields()
    ensures Buildable(JDict(Doc(fa))) && Buildable(JDict(Doc(fb)))
    ensures var r := Reports.Report(Differ.Diff(Builder.FromJson(Doc(fa)), Builder.FromJson(Doc(fb))), 0);
      Reports.Line(2, KStr("y"), Deleted) in r && Reports.Line(3, KInt(11), Deleted) in r &&
      Reports.Line(2, KStr("z"), Inserted) in r && Reports.Line(3, KInt(11), Inserted) in r
  {
    assert Buildable(JDict(fa)) && Buildable(JDict(fb));
    DocFieldLines(fa, fb, "y", 11, "z", 11);
  }

  /** `test_unequal_trees_longer_expected`: dropping `z=12` from the inner dict reports exactly
      `'z' - (Deleted)` and `12 - (Deleted)`. */
  lemma {:induction false} LongerExpectedReport(fa: map<string, Json>, fb: map<string, Json>)
    requires fa == LongerFields() && fb == OldFields()
    ensures Buildable(JDict(Doc(fa))) && Buildable(JDict(Doc(fb)))
    ensures Reports.Report(Differ.Diff(Builder.FromJson(Doc(fa)), Builder.FromJson(Doc(fb))), 0) ==
      multiset{Reports.Line(2, KStr("z"), Deleted), Reports.Line(3, KInt(12), Deleted)}
  {
    assert Buildable(JDict(fb)) && fa == fb["z" := JInt(12)];
    DocOldFieldReport(fa, fb, "z", 12);
  }

  /** `test_unequal_trees_longer_actual`: adding `z=12` reports exactly `'z' - (Inserted)` and
      `12 - (Inserted)`. */
  lemma {:induction false} LongerActualReport(fa: map<string, Json>, fb: map<string, Json>)
    requires fa == OldFields() && fb == LongerFields()
    ensures Buildable(JDict(Doc(fa))) && Buildable(JDict(Doc(fb)))
    ensures Reports.Report(Differ.Diff(Builder.FromJson(Doc(fa)), Builder.FromJson(Doc(fb))), 0) ==
      multiset{Reports.Line(2, KStr("z"), Inserted), Reports.Line(3, KInt(12), Inserted)}
  {
    assert Buildable(JDict(fa)) && fb == fa["z" := JInt(12)];
    DocNewFieldReport(fa, fb, "z", 12);
  }

  /** `test_trivial_equal`: `dict(val=42)` against itself reports nothing. */
  lemma {:induction false} TrivialEqualReport(a: map<string, Json>)
    requires a == map["val" := JInt(42)]
    ensures Buildable(JDict(a))
    ensures Reports.Report(Differ.Diff(Builder.FromJson(a), Builder.FromJson(a)), 0) == multiset{}
  {
    Reports.IdentityLaw(a);
  }

  /** `test_equal_trees`: `{'foo': ['bar', 3, 1.2], 'bipples': None}` against an equal document
      reports nothing. */
  lemma {:induction false} EqualTreesReport(a: map<string, Json>, b: map<string, Json>)
    requires a == map["foo" := JList([JStr("bar"), JInt(3), JFloat("1.2")]), "bipples" := JNone]
    requires b == a
    ensures Buildable(JDict(a)) && Buildable(JDict(b))
    ensures Reports.Report(Differ.Diff(Builder.FromJson(a), Builder.FromJson(b)), 0) == multiset{}
  {
    var foo := JList([JStr("bar"), JInt(3), JFloat("1.2")]);
    assert Buildable(foo) by {
      forall i | 0 <= i < |foo.items|
        ensures IsScalar(foo.items[i])
      {
      }
    }
    forall k | k in a
      ensures Buildable(a[k])
    {
      if k == "foo" {
        assert a[k] == foo;
      } else {
        assert a[k] == JNone;
      }
    }
    Reports.IdentityLaw(a);
  }
}
