/** The decoded JSON values the tree builder consumes, and the keys tree nodes carry. */
module JsonValue {

  /** A JSON value after decoding: a Python `dict`, `list` or scalar. A float is kept opaque. */
  datatype Json =
    | JNone
    | JBool(b: bool)
    | JInt(i: int)
    | JFloat(literal: string)
    | JStr(s: string)
    | JList(items: seq<Json>)
    | JDict(fields: map<string, Json>)

  /** The label of a tree node: a dict key, or a scalar used as its own key (a "value child"). */
  datatype Key =
    | KNone
    | KBool(b: bool)
    | KInt(i: int)
    | KFloat(literal: string)
    | KStr(s: string)

  predicate IsScalar(v: Json) {
    !v.JList? && !v.JDict?
  }

  /** The key of the value child built for a scalar. */
  function ScalarKey(v: Json): (k: Key)
    requires IsScalar(v)
    ensures v.JStr? <==> k.KStr?
  {
    match v
    case JNone => KNone
    case JBool(b) => KBool(b)
    case JInt(i) => KInt(i)
    case JFloat(f) => KFloat(f)
    case JStr(s) => KStr(s)
  }

  /** Values the builder can take without a type error: a list that sits directly inside a list
      holds only dicts, because each of its elements is expanded as a dict. */
  predicate Buildable(v: Json)
    decreases v
  {
    match v
    case JDict(f) => forall k :: k in f ==> Buildable(f[k])
    case JList(items) =>
      forall i :: 0 <= i < |items| ==>
        (match items[i]
         case JList(inner) => forall j :: 0 <= j < |inner| ==> inner[j].JDict? && Buildable(inner[j])
         case _ => Buildable(items[i]))
    case _ => true
  }
}
