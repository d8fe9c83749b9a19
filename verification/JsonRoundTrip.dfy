/** Writing a tree and reading it back: which trees survive. */
module JsonRoundTrip {
  import opened Wrappers
  import opened ConfigTrees
  import opened JsonEvents
  import opened JsonReader

  lemma {:induction false} CStringSame(s: string)
    ensures '\0' !in CString(s)
    ensures CString(s) == s <==> '\0' !in s
  {
    if s != [] {
      CStringSame(s[1..]);
      assert s == [s[0]] + s[1..];
      assert '\0' in s <==> s[0] == '\0' || '\0' in s[1..];
    }
  }

  /** A C string is what is before the first zero character. */
  lemma {:induction false} CStringCut(s: string)
    ensures CString(s) <= s && '\0' !in CString(s)
    ensures |CString(s)| < |s| ==> s[|CString(s)|] == '\0'
  {
    if s != [] && s[0] != '\0' { CStringCut(s[1..]); }
  }

  // ---------- what is written ----------

  lemma {:induction false} ScalarsWritten(items: seq<Scalar>)
    ensures |ScalarsToJson(items)| == |items|
    ensures forall i :: 0 <= i < |items| ==> ScalarsToJson(items)[i] == ToJson(Leaf(items[i]))
  {
    if items != [] { ScalarsWritten(items[1..]); }
  }

  lemma {:induction false} NodesWritten(nodes: seq<Tree>)
    ensures |NodesToJson(nodes)| == |nodes|
    ensures forall i :: 0 <= i < |nodes| ==> NodesToJson(nodes)[i] == ToJson(nodes[i])
    decreases |nodes|
  {
    if nodes != [] { NodesWritten(nodes[1..]); }
  }

  lemma {:induction false} KidsWritten(t: Tree, keys: set<string>)
    requires t.Map? && keys <= t.kids.Keys
    ensures |KidsToJson(t, keys)| == |InOrder(keys)| && forall k :: k in InOrder(keys) ==> k in t.kids
    ensures forall i :: 0 <= i < |InOrder(keys)| ==>
      KidsToJson(t, keys)[i] == Field(CString(InOrder(keys)[i]), ToJson(t.kids[InOrder(keys)[i]]))
    decreases |keys|
  {
    InOrderSorted(keys);
    if keys != {} { KidsWritten(t, keys - {First(keys)}); }
  }

  /** An unset node is written as null, a scalar as itself, except for strings, which end at a zero character, an array
      as an array of its elements, empty or not, and a map as an object of its values, its keys in order. */
  lemma WrittenMeans(t: Tree)
    ensures t.Unset? ==> ToJson(t) == Null
    ensures t.Leaf? && !t.value.String? ==> ToJson(t) == Value(t.value)
    ensures t.Leaf? && t.value.String? ==> ToJson(t) == Value(String(CString(t.value.s)))
    ensures t.Scalars? ==>
      && ToJson(t).Array? && |ToJson(t).items| == |t.items|
      && forall i :: 0 <= i < |t.items| ==> ToJson(t).items[i] == ToJson(Leaf(t.items[i]))
    ensures t.Trees? ==>
      && ToJson(t).Array? && |ToJson(t).items| == |t.nodes|
      && forall i :: 0 <= i < |t.nodes| ==> ToJson(t).items[i] == ToJson(t.nodes[i])
    ensures t.Map? ==>
      ToJson(t).Object? && exists ks: seq<string> ::
      && |ks| == |t.kids| == |ToJson(t).fields| && (forall k :: k in ks <==> k in t.kids)
      && (forall i, j :: 0 <= i < j < |ks| ==> Before(ks[i], ks[j]))
      && (forall i :: 0 <= i < |ks| ==> ToJson(t).fields[i] == Field(CString(ks[i]), ToJson(t.kids[ks[i]])))
  {
    match t
    case Scalars(_, items) => ScalarsWritten(items);
    case Trees(nodes) => NodesWritten(nodes);
    case Map(kids) =>
      InOrderSorted(kids.Keys);
      KidsWritten(t, kids.Keys);
      var ks := InOrder(kids.Keys);
      assert forall k :: k in ks <==> k in kids;
      assert |kids| == |kids.Keys|;
    case _ =>
  }

  ghost predicate Reloads(t: Tree) {
    Load(ToJson(t)) == Some(t)
  }

  lemma LoadItemsCons(so: Tree, x: Json, rest: seq<Json>)
    ensures LoadItems(so, [x] + rest) == if AddItem(so, x).Some? then LoadItems(AddItem(so, x).value, rest) else None
  {
    assert ([x] + rest)[1..] == rest;
  }

  lemma LoadFieldsCons(m: map<string, Tree>, f: Field, rest: seq<Field>)
    ensures LoadFields(m, [f] + rest) ==
      if Load(f.value).Some? then LoadFields(m[f.key := Load(f.value).value], rest) else None
  {
    assert ([f] + rest)[1..] == rest;
  }

  // ---------- arrays of scalars ----------

  function WrittenAll(items: seq<Scalar>): seq<Scalar> {
    if items == [] then [] else [Written(items[0]).s] + WrittenAll(items[1..])
  }

  lemma {:induction false} WrittenAllSame(items: seq<Scalar>)
    ensures |WrittenAll(items)| == |items|
    ensures WrittenAll(items) == items <==> forall s :: s in items ==> Plain(s)
  {
    if items != [] {
      var s := items[0];
      if s.String? { CStringSame(s.s); }
      WrittenAllSame(items[1..]);
      assert forall x :: x in items <==> x == s || x in items[1..];
      var all := WrittenAll(items);
      assert all[0] == Written(s).s && all[1..] == WrittenAll(items[1..]);
      assert all == [all[0]] + all[1..] && items == [s] + items[1..];
      assert all[0] == s <==> Plain(s);
    }
  }

  lemma {:induction false} ScalarsReload(elem: ScalarType, before: seq<Scalar>, items: seq<Scalar>)
    ensures LoadItems(Scalars(elem, before), ScalarsToJson(items)) ==
      if forall s :: s in items ==> TypeOf(s) == elem then Some(Scalars(elem, before + WrittenAll(items))) else None
    decreases items
  {
    if items == [] {
      assert before + WrittenAll(items) == before;
    } else {
      var s := items[0];
      var w := Written(s).s;
      assert forall x :: x in items <==> x == s || x in items[1..];
      LoadItemsCons(Scalars(elem, before), Written(s), ScalarsToJson(items[1..]));
      if TypeOf(s) == elem {
        ScalarsReload(elem, before + [w], items[1..]);
        assert (before + [w]) + WrittenAll(items[1..]) == before + WrittenAll(items);
      }
    }
  }

  lemma {:induction false} ScalarArrayReloads(t: Tree)
    requires t.Scalars?
    ensures Reloads(t) <==> Printable(t)
  {
    var items := t.items;
    if items == [] {
      assert Load(Array([])) == Some(Unset) && ToJson(t) == Array([]);
    } else {
      var s := items[0];
      var w := Written(s).s;
      assert ToJson(t) == Array([Written(s)] + ScalarsToJson(items[1..]));
      LoadItemsCons(Unset, Written(s), ScalarsToJson(items[1..]));
      ScalarsReload(TypeOf(w), [w], items[1..]);
      WrittenAllSame(items);
      assert [w] + WrittenAll(items[1..]) == WrittenAll(items);
      assert forall x :: x in items <==> x == s || x in items[1..];
    }
  }

  // ---------- arrays of trees ----------

  lemma {:induction false} NodesReload(before: seq<Tree>, nodes: seq<Tree>) returns (r: Option<Tree>)
    ensures r == LoadItems(Trees(before), NodesToJson(nodes))
    ensures r.None? ==> exists n :: n in nodes && (n.Unset? || n.Leaf? || Load(ToJson(n)).None?)
    ensures r.Some? ==> r.value.Trees? && |r.value.nodes| == |before| + |nodes| && before <= r.value.nodes
    ensures r.Some? ==> forall i :: 0 <= i < |nodes| ==>
      !nodes[i].Unset? && !nodes[i].Leaf? && Load(ToJson(nodes[i])) == Some(r.value.nodes[|before| + i])
    decreases nodes
  {
    if nodes != [] {
      var n := nodes[0];
      assert n in nodes;
      LoadItemsCons(Trees(before), ToJson(n), NodesToJson(nodes[1..]));
      if !n.Unset? && !n.Leaf? && Load(ToJson(n)).Some? {
        var t := Load(ToJson(n)).value;
        r := NodesReload(before + [t], nodes[1..]);
        assert forall i :: 0 < i < |nodes| ==> nodes[i] == nodes[1..][i - 1];
        assert r.Some? ==> r.value.nodes[|before|] == t;
      } else {
        r := None;
      }
    } else {
      r := Some(Trees(before));
    }
  }

  lemma {:induction false} LoadedScalars(so: Tree, items: seq<Json>)
    requires so.Scalars?
    ensures LoadItems(so, items).Some? ==> LoadItems(so, items).value.Scalars?
    decreases items
  {
    if items != [] && AddItem(so, items[0]).Some? {
      LoadedScalars(AddItem(so, items[0]).value, items[1..]);
    }
  }

  /** An array whose nodes all load is loaded as itself exactly when each of them is. */
  lemma NodesSame(t: Tree, loaded: seq<Tree>)
    requires t.Trees? && t.nodes != [] && |loaded| == |t.nodes| && Load(ToJson(t)) == Some(Trees(loaded))
    requires forall i :: 0 <= i < |loaded| ==>
      !t.nodes[i].Unset? && !t.nodes[i].Leaf? && Load(ToJson(t.nodes[i])) == Some(loaded[i])
    requires forall n :: n in t.nodes ==> (Reloads(n) <==> Printable(n))
    ensures Reloads(t) <==> Printable(t)
  {
    hide Load, ToJson;
    if Printable(t) {
      forall i | 0 <= i < |loaded| ensures loaded[i] == t.nodes[i] {
        assert t.nodes[i] in t.nodes && Reloads(t.nodes[i]);
      }
      assert loaded == t.nodes;
    }
    if loaded == t.nodes {
      assert forall i :: 0 <= i < |loaded| ==> Reloads(t.nodes[i]);
    }
  }

  /** An array that begins with a node that loads. */
  lemma NodeFirst(t: Tree)
    requires t.Trees? && t.nodes != [] && forall n :: n in t.nodes ==> (Reloads(n) <==> Printable(n))
    requires !t.nodes[0].Unset? && !t.nodes[0].Leaf? && Load(ToJson(t.nodes[0])).Some?
    ensures Reloads(t) <==> Printable(t)
  {
    var nodes, n := t.nodes, t.nodes[0];
    assert ToJson(t) == Array([ToJson(n)] + NodesToJson(nodes[1..]));
    LoadItemsCons(Unset, ToJson(n), NodesToJson(nodes[1..]));
    var first := Load(ToJson(n)).value;
    assert [] + [first] == [first];
    var r := NodesReload([first], nodes[1..]);
    assert forall i :: 0 < i < |nodes| ==> nodes[i] == nodes[1..][i - 1];
    if r.Some? {
      NodesSame(t, r.value.nodes);
    } else {
      var x :| x in nodes[1..] && (x.Unset? || x.Leaf? || Load(ToJson(x)).None?);
      assert x in nodes;
    }
  }

  /** An array that begins with a scalar is loaded as an array of scalars. */
  lemma LeafFirst(t: Tree)
    requires t.Trees? && t.nodes != [] && t.nodes[0].Leaf?
    ensures !Reloads(t)
  {
    var s := Written(t.nodes[0].value).s;
    var so := Scalars(TypeOf(s), [s]);
    var rest := NodesToJson(t.nodes[1..]);
    assert ToJson(t) == Array([ToJson(t.nodes[0])] + rest);
    LoadItemsCons(Unset, ToJson(t.nodes[0]), rest);
    assert AddItem(Unset, ToJson(t.nodes[0])) == Some(so);
    LoadScalarItems(so, rest);
    LoadedScalars(so, rest);
  }

  lemma {:induction false} TreeArrayReloads(t: Tree)
    requires t.Trees? && forall n :: n in t.nodes ==> (Reloads(n) <==> Printable(n))
    ensures Reloads(t) <==> Printable(t)
  {
    if t.nodes == [] {
      assert Load(Array([])) == Some(Unset) && ToJson(t) == Array([]);
    } else {
      var n := t.nodes[0];
      assert n in t.nodes;
      if n.Leaf? {
        LeafFirst(t);
      } else if !n.Unset? && Load(ToJson(n)).Some? {
        NodeFirst(t);
      } else {
        assert ToJson(t) == Array([ToJson(n)] + NodesToJson(t.nodes[1..]));
        LoadItemsCons(Unset, ToJson(n), NodesToJson(t.nodes[1..]));
      }
    }
  }

  // ---------- maps ----------

  ghost predicate PlainSet(keys: set<string>) {
    forall k :: k in keys ==> '\0' !in k
  }

  /** The loaded nodes of some keys, over a map. */
  ghost predicate Overlaid(t: Tree, m: map<string, Tree>, keys: set<string>, r: map<string, Tree>)
    requires t.Map? && keys <= t.kids.Keys
  {
    && r.Keys == m.Keys + keys
    && forall k :: k in r ==> if k in keys then Load(ToJson(t.kids[k])) == Some(r[k]) else r[k] == m[k]
  }

  lemma OverlaidNext(t: Tree, m: map<string, Tree>, keys: set<string>, k: string, r: map<string, Tree>)
    requires t.Map? && keys <= t.kids.Keys && k in keys && Load(ToJson(t.kids[k])).Some?
    requires Overlaid(t, m[k := Load(ToJson(t.kids[k])).value], keys - {k}, r)
    ensures Overlaid(t, m, keys, r)
  {
  }

  lemma {:induction false} KidsReload(m: map<string, Tree>, t: Tree, keys: set<string>) returns (r: Option<Tree>)
    requires t.Map? && keys <= t.kids.Keys
    ensures r == LoadFields(m, KidsToJson(t, keys))
    ensures r.None? ==> exists k :: k in keys && Load(ToJson(t.kids[k])).None?
    ensures r.Some? ==> r.value.Map? && forall k :: k in r.value.kids && k !in m ==> '\0' !in k
    ensures r.Some? && PlainSet(keys) ==> Overlaid(t, m, keys, r.value.kids)
    decreases |keys|
  {
    if keys != {} {
      var k := First(keys);
      CStringSame(k);
      var j := ToJson(t.kids[k]);
      LoadFieldsCons(m, Field(CString(k), j), KidsToJson(t, keys - {k}));
      if Load(j).Some? {
        r := KidsReload(m[CString(k) := Load(j).value], t, keys - {k});
        if r.Some? && PlainSet(keys) { OverlaidNext(t, m, keys, k, r.value.kids); }
      } else {
        r := None;
      }
    } else {
      r := Some(Map(m));
    }
  }

  lemma {:induction false} MapReloads(t: Tree)
    requires t.Map? && forall k :: k in t.kids ==> (Reloads(t.kids[k]) <==> Printable(t.kids[k]))
    ensures Reloads(t) <==> Printable(t)
  {
    var r := KidsReload(map[], t, t.kids.Keys);
    if r.Some? && PlainSet(t.kids.Keys) {
      assert r.value.kids.Keys == t.kids.Keys;
      if forall k :: k in t.kids ==> Reloads(t.kids[k]) {
        assert r.value.kids == t.kids;
      }
    }
  }

  // ---------- the round trip ----------

  /** A tree is loaded from its own JSON exactly when it is printable. */
  lemma {:induction false} ReloadsPrintable(t: Tree)
    ensures Reloads(t) <==> Printable(t)
    decreases t
  {
    match t
    case Unset =>
    case Leaf(s) => if s.String? { CStringSame(s.s); }
    case Scalars(_, _) => ScalarArrayReloads(t);
    case Trees(nodes) =>
      forall n | n in nodes ensures Reloads(n) <==> Printable(n) {
        ReloadsPrintable(n);
      }
      TreeArrayReloads(t);
    case Map(kids) =>
      forall k | k in kids ensures Reloads(kids[k]) <==> Printable(kids[k]) {
        ReloadsPrintable(kids[k]);
      }
      MapReloads(t);
  }

  /** Keys without zero characters are written as they are, so that no object repeats one. */
  ghost predicate PlainKeys(t: Tree) {
    match t
    case Trees(nodes) => forall n :: n in nodes ==> PlainKeys(n)
    case Map(kids) => forall k :: k in kids ==> '\0' !in k && PlainKeys(kids[k])
    case _ => true
  }

  lemma {:induction false} PrintableKeys(t: Tree)
    requires Printable(t)
    ensures PlainKeys(t)
    decreases t
  {
    match t
    case Trees(nodes) => forall n | n in nodes ensures PlainKeys(n) { PrintableKeys(n); }
    case Map(kids) => forall k | k in kids ensures PlainKeys(kids[k]) { PrintableKeys(kids[k]); }
    case _ =>
  }

  lemma {:induction false} WrittenDistinct(t: Tree)
    requires PlainKeys(t)
    ensures DistinctKeys(ToJson(t))
    decreases t, 1, 0
  {
    match t
    case Scalars(_, items) => ScalarsDistinct(items);
    case Trees(nodes) => NodesDistinct(nodes);
    case Map(kids) => KidsDistinct(t, kids.Keys);
    case _ =>
  }

  lemma {:induction false} ScalarsDistinct(items: seq<Scalar>)
    ensures DistinctItems(ScalarsToJson(items))
  {
    if items != [] {
      ScalarsDistinct(items[1..]);
      assert ScalarsToJson(items)[1..] == ScalarsToJson(items[1..]);
    }
  }

  lemma {:induction false} NodesDistinct(nodes: seq<Tree>)
    requires forall n :: n in nodes ==> PlainKeys(n)
    ensures DistinctItems(NodesToJson(nodes))
    decreases nodes, 0, 0
  {
    if nodes != [] {
      WrittenDistinct(nodes[0]);
      NodesDistinct(nodes[1..]);
      assert NodesToJson(nodes)[1..] == NodesToJson(nodes[1..]);
    }
  }

  lemma {:induction false} KidsDistinct(t: Tree, keys: set<string>)
    requires t.Map? && keys <= t.kids.Keys && PlainKeys(t)
    ensures DistinctFields(KidsToJson(t, keys))
    ensures forall f :: f in KidsToJson(t, keys) ==> f.key in keys
    decreases t, 0, |keys|
  {
    if keys != {} {
      var k := First(keys);
      CStringSame(k);
      WrittenDistinct(t.kids[k]);
      KidsDistinct(t, keys - {k});
      var rest := KidsToJson(t, keys - {k});
      assert KidsToJson(t, keys)[1..] == rest;
      assert forall i :: 0 < i < |rest| + 1 ==> KidsToJson(t, keys)[i] == rest[i - 1];
      assert forall f :: f in KidsToJson(t, keys) ==> f == KidsToJson(t, keys)[0] || f in rest;
    }
  }

  lemma PrintableDistinct(t: Tree)
    requires Printable(t)
    ensures DistinctKeys(ToJson(t))
  {
    PrintableKeys(t);
    WrittenDistinct(t);
  }

  /** Reading the events written for a tree gives the tree back, with no context left open, if the tree is printable,
      and, where no written object repeats a key, only if it is. */
  lemma RoundTrip(t: Tree)
    ensures Printable(t) ==> Run(START, Events(ToJson(t))) == Some(Done(t))
    ensures DistinctKeys(ToJson(t)) ==> (Run(START, Events(ToJson(t))) == Some(Done(t)) <==> Printable(t))
  {
    if Printable(t) { PrintableDistinct(t); }
    if DistinctKeys(ToJson(t)) {
      Accepts(ToJson(t));
      LoadHomogeneous(ToJson(t));
      ReloadsPrintable(t);
    }
  }
}
