/** JSON at the level of parser events: values, the events of a value, and the events the serializer writes. */
module JsonEvents {
  import opened Wrappers
  import opened ConfigTrees

  datatype Field = Field(key: string, value: Json)

  datatype Json = Null | Value(s: Scalar) | Object(fields: seq<Field>) | Array(items: seq<Json>)

  datatype Event = NullEvent | ScalarEvent(s: Scalar) | StartObject | EndObject | KeyEvent(key: string)
    | StartArray | EndArray

  function Events(j: Json): seq<Event>
    decreases j, 1
  {
    match j
    case Null => [NullEvent]
    case Value(s) => [ScalarEvent(s)]
    case Object(fields) => [StartObject] + FieldEvents(fields) + [EndObject]
    case Array(items) => [StartArray] + ItemEvents(items) + [EndArray]
  }

  function FieldEvents(fields: seq<Field>): seq<Event>
    decreases fields, 0
  {
    if fields == [] then [] else [KeyEvent(fields[0].key)] + Events(fields[0].value) + FieldEvents(fields[1..])
  }

  function ItemEvents(items: seq<Json>): seq<Event>
    decreases items, 0
  {
    if items == [] then [] else Events(items[0]) + ItemEvents(items[1..])
  }

  /** The events of items come in the order of the items, and those of fields in the order of the fields. */
  lemma {:induction false} EventsInOrder(a: seq<Json>, b: seq<Json>, f: seq<Field>, g: seq<Field>)
    ensures ItemEvents(a + b) == ItemEvents(a) + ItemEvents(b)
    ensures FieldEvents(f + g) == FieldEvents(f) + FieldEvents(g)
    decreases |a| + |f|
  {
    if a != [] {
      assert (a + b)[1..] == a[1..] + b;
      EventsInOrder(a[1..], b, f, g);
    } else {
      assert a + b == b;
      if f != [] {
        assert (f + g)[1..] == f[1..] + g;
        EventsInOrder(a, b, f[1..], g);
      } else {
        assert f + g == g;
      }
    }
  }

  /** No object repeats a key. */
  ghost predicate DistinctKeys(j: Json)
    decreases j, 1
  {
    match j
    case Null => true
    case Value(_) => true
    case Object(fields) => DistinctFields(fields)
    case Array(items) => DistinctItems(items)
  }

  ghost predicate DistinctFields(fields: seq<Field>)
    decreases fields, 0
  {
    fields == [] ||
    (DistinctKeys(fields[0].value) && DistinctFields(fields[1..])
     && forall i :: 0 < i < |fields| ==> fields[i].key != fields[0].key)
  }

  ghost predicate DistinctItems(items: seq<Json>)
    decreases items, 0
  {
    items == [] || (DistinctKeys(items[0]) && DistinctItems(items[1..]))
  }

  // ---------- what a value is loaded as ----------

  /** The tree of a value; an empty array is loaded as an unset node, and a value with a null inside an array or with
      an array of mixed elements is refused. */
  function Load(j: Json): Option<Tree>
    decreases j, 1
  {
    match j
    case Null => Some(Unset)
    case Value(s) => Some(Leaf(s))
    case Object(fields) => LoadFields(map[], fields)
    case Array(items) => LoadItems(Unset, items)
  }

  function LoadFields(m: map<string, Tree>, fields: seq<Field>): Option<Tree>
    decreases fields, 0
  {
    if fields == [] then Some(Map(m))
    else
      match Load(fields[0].value)
      case None => None
      case Some(t) => LoadFields(m[fields[0].key := t], fields[1..])
  }

  function LoadItems(so: Tree, items: seq<Json>): Option<Tree>
    decreases items, 0
  {
    if items == [] then Some(so)
    else
      match AddItem(so, items[0])
      case None => None
      case Some(t) => LoadItems(t, items[1..])
  }

  /** An array extended by one element; its first element decides what it is an array of. */
  function AddItem(so: Tree, j: Json): Option<Tree>
    decreases j, 2
  {
    match j
    case Null => None
    case Value(s) =>
      if so == Unset then Some(Scalars(TypeOf(s), [s]))
      else if so.Scalars? && so.elem == TypeOf(s) then Some(Scalars(so.elem, so.items + [s]))
      else None
    case _ =>
      if so != Unset && !so.Trees? then None
      else
        match Load(j)
        case None => None
        case Some(t) => Some(Trees((if so == Unset then [] else so.nodes) + [t]))
  }

  predicate Container(j: Json) {
    j.Object? || j.Array?
  }

  /** All arrays are homogeneous: scalars of one type, or objects and arrays only. */
  predicate Homogeneous(j: Json)
    decreases j, 1
  {
    match j
    case Null => true
    case Value(_) => true
    case Object(fields) => forall f :: f in fields ==> Homogeneous(f.value)
    case Array(items) =>
      || (forall x :: x in items ==> x.Value? && items[0].Value? && TypeOf(x.s) == TypeOf(items[0].s))
      || (forall x :: x in items ==> Container(x) && Homogeneous(x))
  }

  lemma {:induction false} LoadFieldsHomogeneous(m: map<string, Tree>, fields: seq<Field>)
    ensures LoadFields(m, fields).Some? <==> forall f :: f in fields ==> Homogeneous(f.value)
    decreases fields, 0
  {
    if fields != [] {
      LoadHomogeneous(fields[0].value);
      assert forall f :: f in fields <==> f == fields[0] || f in fields[1..];
      if Load(fields[0].value).Some? {
        LoadFieldsHomogeneous(m[fields[0].key := Load(fields[0].value).value], fields[1..]);
      }
    }
  }

  lemma {:induction false} LoadScalarItems(so: Tree, items: seq<Json>)
    requires so.Scalars?
    ensures LoadItems(so, items).Some? <==> forall x :: x in items ==> x.Value? && TypeOf(x.s) == so.elem
    decreases items, 0
  {
    if items != [] {
      var j := items[0];
      assert forall x :: x in items <==> x == j || x in items[1..];
      if j.Value? && TypeOf(j.s) == so.elem {
        LoadScalarItems(Scalars(so.elem, so.items + [j.s]), items[1..]);
      } else {
        assert j in items && AddItem(so, j) == None;
      }
    }
  }

  lemma {:induction false} LoadTreeItems(so: Tree, items: seq<Json>)
    requires so.Trees?
    ensures LoadItems(so, items).Some? <==> forall x :: x in items ==> Container(x) && Homogeneous(x)
    decreases items, 0
  {
    if items != [] {
      assert forall x :: x in items <==> x == items[0] || x in items[1..];
      if Container(items[0]) {
        LoadHomogeneous(items[0]);
      }
      if AddItem(so, items[0]).Some? {
        LoadTreeItems(AddItem(so, items[0]).value, items[1..]);
      }
    }
  }

  /** A value can be loaded exactly when its arrays are homogeneous. */
  lemma {:induction false} LoadHomogeneous(j: Json)
    ensures Load(j).Some? <==> Homogeneous(j)
    decreases j, 1
  {
    match j
    case Null =>
    case Value(_) =>
    case Object(fields) => LoadFieldsHomogeneous(map[], fields);
    case Array(items) =>
      if items != [] {
        assert forall x :: x in items <==> x == items[0] || x in items[1..];
        if Container(items[0]) {
          LoadHomogeneous(items[0]);
        }
        if AddItem(Unset, items[0]).Some? {
          var so := AddItem(Unset, items[0]).value;
          if items[0].Value? {
            LoadScalarItems(so, items[1..]);
          } else {
            LoadTreeItems(so, items[1..]);
          }
        }
      }
  }

  // ---------- what arrays and objects are loaded as ----------

  lemma {:induction false} LoadScalarValues(so: Tree, items: seq<Json>)
    requires so.Scalars? && forall x :: x in items ==> x.Value? && TypeOf(x.s) == so.elem
    ensures var r := LoadItems(so, items);
      && r.Some? && r.value.Scalars? && r.value.elem == so.elem && |r.value.items| == |so.items| + |items|
      && so.items <= r.value.items
      && forall i :: 0 <= i < |items| ==> r.value.items[|so.items| + i] == items[i].s
    decreases items
  {
    if items != [] {
      var next := Scalars(so.elem, so.items + [items[0].s]);
      assert AddItem(so, items[0]) == Some(next);
      LoadScalarValues(next, items[1..]);
      var r := LoadItems(so, items).value.items;
      assert r[|so.items|] == next.items[|so.items|] && so.items == next.items[..|so.items|];
      forall i | 0 < i < |items| ensures r[|so.items| + i] == items[i].s {
        assert items[i] == items[1..][i - 1];
      }
    }
  }

  lemma {:induction false} LoadTreeValues(so: Tree, items: seq<Json>)
    requires so.Trees? && forall x :: x in items ==> Container(x) && Load(x).Some?
    ensures var r := LoadItems(so, items);
      && r.Some? && r.value.Trees? && |r.value.nodes| == |so.nodes| + |items| && so.nodes <= r.value.nodes
      && forall i :: 0 <= i < |items| ==> Load(items[i]) == Some(r.value.nodes[|so.nodes| + i])
    decreases items
  {
    if items != [] {
      var next := Trees(so.nodes + [Load(items[0]).value]);
      assert AddItem(so, items[0]) == Some(next);
      LoadTreeValues(next, items[1..]);
      var r := LoadItems(so, items).value.nodes;
      assert r[|so.nodes|] == next.nodes[|so.nodes|] && so.nodes == next.nodes[..|so.nodes|];
      forall i | 0 < i < |items| ensures Load(items[i]) == Some(r[|so.nodes| + i]) {
        assert items[i] == items[1..][i - 1];
      }
    }
  }

  /** An array is loaded exactly if it is empty, or holds integers only, or floating numbers only, or booleans only, or
      strings only, or objects and arrays only that are loaded themselves. Empty, it is loaded as an unset node. */
  lemma LoadArray(items: seq<Json>)
    ensures Load(Array(items)).Some? <==>
      || items == []
      || (forall x :: x in items ==> x.Value? && x.s.Int?)
      || (forall x :: x in items ==> x.Value? && x.s.Double?)
      || (forall x :: x in items ==> x.Value? && x.s.Bool?)
      || (forall x :: x in items ==> x.Value? && x.s.String?)
      || (forall x :: x in items ==> (x.Object? || x.Array?) && Load(x).Some?)
    ensures items == [] ==> Load(Array(items)) == Some(Unset)
  {
    if items != [] {
      var j := items[0];
      assert j in items && forall x :: x in items <==> x == j || x in items[1..];
      if j.Value? {
        var so := Scalars(TypeOf(j.s), [j.s]);
        assert AddItem(Unset, j) == Some(so);
        LoadScalarItems(so, items[1..]);
      } else if Container(j) && Load(j).Some? {
        assert [] + [Load(j).value] == [Load(j).value];
        assert AddItem(Unset, j) == Some(Trees([Load(j).value]));
        LoadTreeItems(Trees([Load(j).value]), items[1..]);
        forall x | x in items ensures Load(x).Some? <==> Homogeneous(x) { LoadHomogeneous(x); }
      } else {
        assert AddItem(Unset, j) == None;
      }
    }
  }

  lemma LoadedScalars(items: seq<Json>)
    requires items != [] && items[0].Value?
    requires forall x :: x in items ==> x.Value? && TypeOf(x.s) == TypeOf(items[0].s)
    ensures var t := LoadItems(Unset, items);
      && t.Some? && t.value.Scalars? && t.value.elem == TypeOf(items[0].s) && |t.value.items| == |items|
      && forall i :: 0 <= i < |items| ==> items[i] == Value(t.value.items[i])
  {
    var j := items[0];
    var so := Scalars(TypeOf(j.s), [j.s]);
    assert AddItem(Unset, j) == Some(so);
    forall x | x in items[1..] ensures x.Value? && TypeOf(x.s) == so.elem { assert x in items; }
    LoadScalarValues(so, items[1..]);
    forall i | 0 < i < |items| ensures items[i] == items[1..][i - 1] && items[i] in items {}
  }

  lemma FirstNode(j: Json)
    requires Container(j) && Load(j).Some?
    ensures AddItem(Unset, j) == Some(Trees([Load(j).value]))
  {
    assert [] + [Load(j).value] == [Load(j).value];
  }

  lemma LoadedNodes(items: seq<Json>)
    requires items != [] && forall x :: x in items ==> Container(x) && Load(x).Some?
    ensures var t := LoadItems(Unset, items);
      && t.Some? && t.value.Trees? && |t.value.nodes| == |items|
      && forall i :: 0 <= i < |items| ==> Load(items[i]) == Some(t.value.nodes[i])
  {
    hide Load, AddItem;
    var j := items[0];
    assert j in items;
    var so := Trees([Load(j).value]);
    FirstNode(j);
    forall x | x in items[1..] ensures Container(x) && Load(x).Some? { assert x in items; }
    LoadTreeValues(so, items[1..]);
    forall i | 0 < i < |items| ensures items[i] == items[1..][i - 1] {}
  }

  /** What the elements are, and what type the array is said to have. */
  lemma LoadedArray(items: seq<Json>)
    requires items != [] && Load(Array(items)).Some?
    ensures var t := Load(Array(items)).value;
      if items[0].Value? then
        && t.Scalars? && |t.items| == |items| && (forall i :: 0 <= i < |items| ==> items[i] == Value(t.items[i]))
        && (t.elem.IntType? <==> items[0].s.Int?) && (t.elem.DoubleType? <==> items[0].s.Double?)
        && (t.elem.BoolType? <==> items[0].s.Bool?) && (t.elem.StringType? <==> items[0].s.String?)
      else
        t.Trees? && |t.nodes| == |items| && forall i :: 0 <= i < |items| ==> Load(items[i]) == Some(t.nodes[i])
  {
    LoadArray(items);
    var j := items[0];
    assert j in items;
    if j.Value? {
      LoadedScalars(items);
    } else {
      LoadedNodes(items);
    }
  }

  lemma {:induction false} LoadedFields(m: map<string, Tree>, fields: seq<Field>)
    requires forall i, j :: 0 <= i < j < |fields| ==> fields[i].key != fields[j].key
    ensures LoadFields(m, fields).Some? <==> forall i :: 0 <= i < |fields| ==> Load(fields[i].value).Some?
    ensures LoadFields(m, fields).Some? ==> var t := LoadFields(m, fields).value;
      && t.Map? && (forall i :: 0 <= i < |fields| ==> fields[i].key in t.kids)
      && (forall k :: k in t.kids ==> k in m || exists i :: 0 <= i < |fields| && fields[i].key == k)
      && (forall i :: 0 <= i < |fields| ==> Load(fields[i].value) == Some(t.kids[fields[i].key]))
      && (forall k :: k in m && (forall i :: 0 <= i < |fields| ==> fields[i].key != k) ==>
            k in t.kids && t.kids[k] == m[k])
    decreases fields
  {
    if fields != [] {
      var rest := fields[1..];
      assert forall i :: 0 < i < |fields| ==> fields[i] == rest[i - 1];
      if Load(fields[0].value).Some? {
        LoadedFields(m[fields[0].key := Load(fields[0].value).value], rest);
      }
    }
  }

  /** An object is loaded exactly if all its values are, as a map of its keys to them. */
  lemma LoadObject(fields: seq<Field>)
    requires forall i, j :: 0 <= i < j < |fields| ==> fields[i].key != fields[j].key
    ensures Load(Object(fields)).Some? <==> forall i :: 0 <= i < |fields| ==> Load(fields[i].value).Some?
    ensures Load(Object(fields)).Some? ==> var t := Load(Object(fields)).value;
      && t.Map? && (forall k :: k in t.kids <==> exists i :: 0 <= i < |fields| && fields[i].key == k)
      && forall i :: 0 <= i < |fields| ==> Load(fields[i].value) == Some(t.kids[fields[i].key])
  {
    LoadedFields(map[], fields);
  }

  // ---------- what the serializer writes ----------

  /** A string as a C string: it ends before its first zero character. */
  function CString(s: string): string {
    if s == [] || s[0] == '\0' then [] else [s[0]] + CString(s[1..])
  }

  function Written(s: Scalar): Json {
    Value(if s.String? then String(CString(s.s)) else s)
  }

  /** The JSON value written for a tree, with map keys in order. */
  ghost function ToJson(t: Tree): Json
    decreases t, 1, 0
  {
    match t
    case Unset => Null
    case Leaf(s) => Written(s)
    case Scalars(_, items) => Array(ScalarsToJson(items))
    case Trees(nodes) => Array(NodesToJson(nodes))
    case Map(kids) => Object(KidsToJson(t, kids.Keys))
  }

  ghost function ScalarsToJson(items: seq<Scalar>): seq<Json> {
    if items == [] then [] else [Written(items[0])] + ScalarsToJson(items[1..])
  }

  ghost function NodesToJson(nodes: seq<Tree>): seq<Json>
    decreases nodes, 0, 0
  {
    if nodes == [] then [] else [ToJson(nodes[0])] + NodesToJson(nodes[1..])
  }

  ghost function KidsToJson(t: Tree, keys: set<string>): seq<Field>
    requires t.Map? && keys <= t.kids.Keys
    decreases t, 0, |keys|
  {
    if keys == {} then []
    else
      var k := First(keys);
      [Field(CString(k), ToJson(t.kids[k]))] + KidsToJson(t, keys - {k})
  }

  // ---------- which trees survive being written and read ----------

  ghost predicate Plain(s: Scalar) {
    s.String? ==> '\0' !in s.s
  }

  /** No empty array, arrays of trees hold maps and arrays only, and no string or key holds a zero character. */
  ghost predicate Printable(t: Tree) {
    match t
    case Unset => true
    case Leaf(s) => Plain(s)
    case Scalars(elem, items) => items != [] && forall s :: s in items ==> TypeOf(s) == elem && Plain(s)
    case Trees(nodes) => nodes != [] && forall n :: n in nodes ==> !n.Unset? && !n.Leaf? && Printable(n)
    case Map(kids) => forall k :: k in kids ==> '\0' !in k && Printable(kids[k])
  }
}
