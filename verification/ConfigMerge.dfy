/** Merging one configuration tree into another. */
module ConfigMerge {
  import opened ConfigTrees
  import opened ConfigPaths
  import opened ConfigLookup

  datatype ArrayMerge = Merge | Append | Prepend | Override | Preserve

  /** Arrays merged as wholes: with Merge the other array is laid over this one. */
  function Flat<T>(a: seq<T>, b: seq<T>, mode: ArrayMerge): seq<T> {
    match mode
    case Merge => if |a| > |b| then b + a[|b|..] else b
    case Append => a + b
    case Prepend => b + a
    case Override => b
    case Preserve => a
  }

  /** Nodes that are merged part by part; the arrays of scalars of different types are different. */
  predicate SameKind(a: Tree, b: Tree) {
    (a.Map? && b.Map?) || (a.Trees? && b.Trees?) || (a.Scalars? && b.Scalars? && a.elem == b.elem)
  }

  function Merged(a: Tree, b: Tree, mode: ArrayMerge): Tree
    decreases b, 1
  {
    if a == Unset then b
    else if b == Unset then a
    else if !SameKind(a, b) then b
    else
      match b
      case Scalars(elem, items) => Scalars(elem, Flat(a.items, items, mode))
      case Trees(nodes) => Trees(if mode == Merge then MergedNodes(a.nodes, nodes) else Flat(a.nodes, nodes, mode))
      case Map(kids) =>
        Map(map k | k in a.kids.Keys + kids.Keys ::
            if k !in kids then a.kids[k] else if k !in a.kids then kids[k] else Merged(a.kids[k], kids[k], mode))
  }

  function MergedNodes(a: seq<Tree>, b: seq<Tree>): seq<Tree>
    decreases b, 0
  {
    if a == [] then b
    else if b == [] then a
    else [Merged(a[0], b[0], Merge)] + MergedNodes(a[1..], b[1..])
  }

  // ---------- what merging gives ----------

  /** Two arrays of scalars of one type, element by element: with Merge the other's elements win where both have one. */
  lemma ScalarsMerged(elem: ScalarType, a: seq<Scalar>, b: seq<Scalar>, mode: ArrayMerge)
    ensures var r := Merged(Scalars(elem, a), Scalars(elem, b), mode);
      && r.Scalars? && r.elem == elem
      && (mode.Merge? ==>
            && |r.items| == (if |a| > |b| then |a| else |b|)
            && forall i :: 0 <= i < |r.items| ==> r.items[i] == if i < |b| then b[i] else a[i])
      && (mode.Append? ==>
            && |r.items| == |a| + |b|
            && forall i :: 0 <= i < |r.items| ==> r.items[i] == if i < |a| then a[i] else b[i - |a|])
      && (mode.Prepend? ==>
            && |r.items| == |b| + |a|
            && forall i :: 0 <= i < |r.items| ==> r.items[i] == if i < |b| then b[i] else a[i - |b|])
      && (mode.Override? ==> r.items == b)
      && (mode.Preserve? ==> r.items == a)
  {
  }

  /** Two arrays of trees, element by element: with Merge elements at one place are merged. */
  lemma TreesMerged(a: seq<Tree>, b: seq<Tree>, mode: ArrayMerge)
    ensures var r := Merged(Trees(a), Trees(b), mode);
      && r.Trees?
      && (mode.Merge? ==>
            && |r.nodes| == (if |a| > |b| then |a| else |b|)
            && forall i :: 0 <= i < |r.nodes| ==>
                 r.nodes[i] == if i < |a| && i < |b| then Merged(a[i], b[i], Merge) else if i < |b| then b[i] else a[i])
      && (mode.Append? ==>
            && |r.nodes| == |a| + |b|
            && forall i :: 0 <= i < |r.nodes| ==> r.nodes[i] == if i < |a| then a[i] else b[i - |a|])
      && (mode.Prepend? ==>
            && |r.nodes| == |b| + |a|
            && forall i :: 0 <= i < |r.nodes| ==> r.nodes[i] == if i < |b| then b[i] else a[i - |b|])
      && (mode.Override? ==> r.nodes == b)
      && (mode.Preserve? ==> r.nodes == a)
  {
    if mode == Merge {
      var r := Merged(Trees(a), Trees(b), mode).nodes;
      MergedNodesAt(a, b, 0);
      forall i | 0 <= i < |r|
        ensures r[i] == if i < |a| && i < |b| then Merged(a[i], b[i], Merge) else if i < |b| then b[i] else a[i]
      {
        MergedNodesAt(a, b, i);
      }
    }
  }

  /** Two maps, key by key. */
  lemma MapsMerged(a: map<string, Tree>, b: map<string, Tree>, mode: ArrayMerge)
    ensures var r := Merged(Map(a), Map(b), mode);
      && r.Map? && (forall k :: k in r.kids <==> k in a || k in b)
      && forall k :: k in r.kids ==>
           r.kids[k] == if k in a && k in b then Merged(a[k], b[k], mode) else if k in b then b[k] else a[k]
  {
  }

  /** In every other case the second tree wins if it is set. */
  lemma OthersMerged(a: Tree, b: Tree, mode: ArrayMerge)
    requires !(a.Map? && b.Map?) && !(a.Trees? && b.Trees?) && !(a.Scalars? && b.Scalars? && a.elem == b.elem)
    ensures Merged(a, b, mode) == if b == Unset then a else b
  {
  }

  // ---------- what is found in a merged tree ----------

  /** How two trees meet along a path: side by side to its end; with the second hiding the first where they differ in
      kind; or at arrays that are not merged element by element. */
  datatype Course = Together | Hidden | Shifted

  function Meeting(a: Tree, b: Tree, path: seq<string>, mode: ArrayMerge): Course
    decreases path
  {
    if path == [] then Together
    else if path[0] == "" then Meeting(a, b, path[1..], mode)
    else if a == Unset || b == Unset then Together
    else if !SameKind(a, b) then Hidden
    else if a.Trees? && mode != Merge then Shifted
    else Meeting(Under(a, path[0]), Under(b, path[0]), path[1..], mode)
  }

  function Under(t: Tree, section: string): Tree {
    var r := Child(t, section);
    if r.Ok? then r.value else Unset
  }

  lemma {:induction false} MergedNodesAt(a: seq<Tree>, b: seq<Tree>, i: nat)
    ensures |MergedNodes(a, b)| == if |a| > |b| then |a| else |b|
    ensures i < |a| && i < |b| ==> MergedNodes(a, b)[i] == Merged(a[i], b[i], Merge)
    ensures |a| <= i < |b| ==> MergedNodes(a, b)[i] == b[i]
    ensures |b| <= i < |a| ==> MergedNodes(a, b)[i] == a[i]
    decreases a
  {
    if a != [] && b != [] {
      MergedNodesAt(a[1..], b[1..], if i == 0 then 0 else i - 1);
    }
  }

  lemma UnderMerged(a: Tree, b: Tree, section: string, mode: ArrayMerge)
    requires SameKind(a, b) && (a.Trees? ==> mode == Merge)
    ensures Under(Merged(a, b, mode), section) == Merged(Under(a, section), Under(b, section), mode)
  {
    var merged := Merged(a, b, mode);
    if a.Trees? {
      var pos := NumberAt(section);
      if pos.Some? {
        MergedNodesAt(a.nodes, b.nodes, pos.value);
        assert merged.nodes == MergedNodes(a.nodes, b.nodes);
      }
    } else if a.Map? {
      assert section in merged.kids <==> section in a.kids || section in b.kids;
      if section in a.kids && section in b.kids {
        assert merged.kids[section] == Merged(a.kids[section], b.kids[section], mode);
      }
    }
  }

  lemma {:induction false} FindUnder(t: Tree, path: seq<string>)
    requires path != [] && path[0] != ""
    ensures Find(t, path) == Find(Under(t, path[0]), path[1..])
  {
    if Child(t, path[0]).Err? { FindUnset(path[1..]); }
  }

  lemma {:induction false} FindUnset(path: seq<string>)
    ensures Find(Unset, path) == Unset
  {
    if path != [] && path[0] == "" { FindUnset(path[1..]); }
  }

  /** Merging goes through lookup: at every path where the trees meet side by side, array indices included, the merged
      tree holds the merge of what they hold there, so the second tree's value if it has one and else the first's. Below
      a node where the second tree differs in kind, only the second tree is found. */
  lemma {:induction false} FindMerged(a: Tree, b: Tree, path: seq<string>, mode: ArrayMerge)
    ensures Meeting(a, b, path, mode).Together? ==>
      Find(Merged(a, b, mode), path) == Merged(Find(a, path), Find(b, path), mode)
    ensures Meeting(a, b, path, mode).Hidden? ==> Find(Merged(a, b, mode), path) == Find(b, path)
    decreases path
  {
    FindUnset(path);
    if path != [] {
      if path[0] == "" {
        FindMerged(a, b, path[1..], mode);
      } else if a != Unset && b != Unset && SameKind(a, b) && (a.Trees? ==> mode == Merge) {
        FindUnder(a, path);
        FindUnder(b, path);
        FindUnder(Merged(a, b, mode), path);
        UnderMerged(a, b, path[0], mode);
        FindMerged(Under(a, path[0]), Under(b, path[0]), path[1..], mode);
      }
    }
  }

  // ---------- merging a tree with itself ----------

  ghost predicate NoItems(t: Tree) {
    match t
    case Scalars(_, items) => items == []
    case Trees(nodes) => nodes == []
    case Map(kids) => forall k :: k in kids ==> NoItems(kids[k])
    case _ => true
  }

  lemma {:induction false} NodesIdempotent(nodes: seq<Tree>)
    requires forall n :: n in nodes ==> Merged(n, n, Merge) == n
    ensures MergedNodes(nodes, nodes) == nodes
  {
    if nodes != [] { NodesIdempotent(nodes[1..]); }
  }

  /** Merging a tree into itself changes nothing, except that Append and Prepend double every array that is not
      empty. */
  lemma {:induction false} MergeIdempotent(t: Tree, mode: ArrayMerge)
    ensures Merged(t, t, mode) == t <==> (mode == Append || mode == Prepend ==> NoItems(t))
    decreases t
  {
    match t
    case Trees(nodes) =>
      if mode == Merge {
        forall n | n in nodes ensures Merged(n, n, mode) == n { MergeIdempotent(n, mode); }
        NodesIdempotent(nodes);
      } else {
        assert |Flat(nodes, nodes, mode)| == |nodes| <==> (mode == Append || mode == Prepend ==> nodes == []);
      }
    case Scalars(_, items) =>
      assert |Flat(items, items, mode)| == |items| <==> (mode == Append || mode == Prepend ==> items == []);
    case Map(kids) =>
      var m := Merged(t, t, mode).kids;
      forall k | k in kids ensures m[k] == kids[k] <==> (mode == Append || mode == Prepend ==> NoItems(kids[k])) {
        MergeIdempotent(kids[k], mode);
      }
      assert m.Keys == kids.Keys;
    case _ =>
  }

  // ---------- merging three trees ----------

  lemma FlatAssociative<T>(a: seq<T>, b: seq<T>, c: seq<T>, mode: ArrayMerge)
    ensures Flat(Flat(a, b, mode), c, mode) == Flat(a, Flat(b, c, mode), mode)
  {
  }

  /** The order of two merges does not matter: nowhere does the middle tree hold a node of a kind of its own between two
      nodes of one kind, unless the first of these adds nothing to the last. */
  ghost predicate Associates(a: Tree, b: Tree, c: Tree, mode: ArrayMerge)
    decreases c, 1
  {
    if a == Unset || b == Unset || c == Unset || !SameKind(a, c) then true
    else if !SameKind(b, c) then Merged(a, c, mode) == c
    else
      match c
      case Scalars(_, _) => true
      case Trees(nodes) => mode == Merge ==> NodesAssociate(a.nodes, b.nodes, nodes)
      case Map(kids) => forall k :: k in kids && k in a.kids && k in b.kids ==>
                          Associates(a.kids[k], b.kids[k], kids[k], mode)
  }

  ghost predicate NodesAssociate(a: seq<Tree>, b: seq<Tree>, c: seq<Tree>)
    decreases c, 0
  {
    a == [] || b == [] || c == [] ||
    (Associates(a[0], b[0], c[0], Merge) && NodesAssociate(a[1..], b[1..], c[1..]))
  }

  lemma {:induction false} NodesAssociative(a: seq<Tree>, b: seq<Tree>, c: seq<Tree>)
    ensures MergedNodes(MergedNodes(a, b), c) == MergedNodes(a, MergedNodes(b, c)) <==> NodesAssociate(a, b, c)
    decreases c, 0
  {
    if a != [] && b != [] && c != [] {
      MergeAssociative(a[0], b[0], c[0], Merge);
      NodesAssociative(a[1..], b[1..], c[1..]);
      var l, r := MergedNodes(MergedNodes(a, b), c), MergedNodes(a, MergedNodes(b, c));
      assert MergedNodes(a, b)[1..] == MergedNodes(a[1..], b[1..]);
      assert MergedNodes(b, c)[1..] == MergedNodes(b[1..], c[1..]);
      assert l == [Merged(Merged(a[0], b[0], Merge), c[0], Merge)] + MergedNodes(MergedNodes(a[1..], b[1..]), c[1..]);
      assert r == [Merged(a[0], Merged(b[0], c[0], Merge), Merge)] + MergedNodes(a[1..], MergedNodes(b[1..], c[1..]));
      assert l == r <==> l[0] == r[0] && l[1..] == r[1..];
    }
  }

  lemma TreesAssociative(a: Tree, b: Tree, c: Tree, mode: ArrayMerge)
    requires a.Trees? && b.Trees? && c.Trees?
    requires MergedNodes(MergedNodes(a.nodes, b.nodes), c.nodes) == MergedNodes(a.nodes, MergedNodes(b.nodes, c.nodes))
        <==> NodesAssociate(a.nodes, b.nodes, c.nodes)
    ensures Merged(Merged(a, b, mode), c, mode) == Merged(a, Merged(b, c, mode), mode) <==> Associates(a, b, c, mode)
  {
    FlatAssociative(a.nodes, b.nodes, c.nodes, mode);
  }

  ghost predicate AssociatesAt(a: Tree, b: Tree, c: Tree, mode: ArrayMerge, k: string)
    requires a.Map? && b.Map? && c.Map? && k in a.kids && k in b.kids && k in c.kids
  {
    var x, y, z := a.kids[k], b.kids[k], c.kids[k];
    Merged(Merged(x, y, mode), z, mode) == Merged(x, Merged(y, z, mode), mode) <==> Associates(x, y, z, mode)
  }

  lemma MapsAssociative(a: Tree, b: Tree, c: Tree, mode: ArrayMerge)
    requires a.Map? && b.Map? && c.Map?
    requires forall k :: k in c.kids && k in a.kids && k in b.kids ==> AssociatesAt(a, b, c, mode, k)
    ensures Merged(Merged(a, b, mode), c, mode) == Merged(a, Merged(b, c, mode), mode) <==> Associates(a, b, c, mode)
  {
    var l, r := Merged(Merged(a, b, mode), c, mode).kids, Merged(a, Merged(b, c, mode), mode).kids;
    assert l.Keys == r.Keys;
    forall k | k in l
      ensures l[k] == r[k] <==>
        (k in c.kids && k in a.kids && k in b.kids ==> Associates(a.kids[k], b.kids[k], c.kids[k], mode))
    {
      if k in c.kids && k in a.kids && k in b.kids {
        assert AssociatesAt(a, b, c, mode, k);
      }
    }
  }

  /** Merging is associative exactly as Associates says, in every array mode. */
  lemma {:induction false} MergeAssociative(a: Tree, b: Tree, c: Tree, mode: ArrayMerge)
    ensures Merged(Merged(a, b, mode), c, mode) == Merged(a, Merged(b, c, mode), mode) <==> Associates(a, b, c, mode)
    decreases c, 1
  {
    if a != Unset && b != Unset && c != Unset && SameKind(a, c) && SameKind(b, c) {
      match c
      case Scalars(_, items) => FlatAssociative(a.items, b.items, items, mode);
      case Trees(nodes) =>
        NodesAssociative(a.nodes, b.nodes, nodes);
        TreesAssociative(a, b, c, mode);
      case Map(kids) =>
        forall k | k in kids && k in a.kids && k in b.kids ensures AssociatesAt(a, b, c, mode, k) {
          MergeAssociative(a.kids[k], b.kids[k], kids[k], mode);
        }
        MapsAssociative(a, b, c, mode);
    }
  }

  /** Two trees hold nodes of one kind wherever both hold one. */
  ghost predicate Agree(a: Tree, b: Tree)
    decreases b, 1
  {
    if a == Unset || b == Unset || (a.Leaf? && b.Leaf?) then true
    else
      && SameKind(a, b)
      && (a.Map? ==> forall k :: k in a.kids && k in b.kids ==> Agree(a.kids[k], b.kids[k]))
      && (a.Trees? ==> AgreeNodes(a.nodes, b.nodes))
  }

  ghost predicate AgreeNodes(a: seq<Tree>, b: seq<Tree>)
    decreases b, 0
  {
    a == [] || b == [] || (Agree(a[0], b[0]) && AgreeNodes(a[1..], b[1..]))
  }

  lemma {:induction false} AgreeAssociates(a: Tree, b: Tree, c: Tree, mode: ArrayMerge)
    requires Agree(b, c)
    ensures Associates(a, b, c, mode)
    decreases c, 1
  {
    if a != Unset && b != Unset && c != Unset && SameKind(a, c) {
      if c.Map? {
        forall k | k in c.kids && k in a.kids && k in b.kids
          ensures Associates(a.kids[k], b.kids[k], c.kids[k], mode)
        {
          AgreeAssociates(a.kids[k], b.kids[k], c.kids[k], mode);
        }
      } else if c.Trees? {
        AgreeNodesAssociate(a.nodes, b.nodes, c.nodes);
      }
    }
  }

  lemma {:induction false} AgreeNodesAssociate(a: seq<Tree>, b: seq<Tree>, c: seq<Tree>)
    requires AgreeNodes(b, c)
    ensures NodesAssociate(a, b, c)
    decreases c, 0
  {
    if a != [] && b != [] && c != [] {
      AgreeAssociates(a[0], b[0], c[0], Merge);
      AgreeNodesAssociate(a[1..], b[1..], c[1..]);
    }
  }

  /** A scalar between two maps makes the order matter. */
  lemma ScalarBetweenMaps()
    ensures
      var a, b, c := Map(map["k" := Leaf(Int(1))]), Leaf(Int(2)), Map(map[]);
      Merged(Merged(a, b, Merge), c, Merge) == c && Merged(a, Merged(b, c, Merge), Merge) == a
  {
    var a, b, c := Map(map["k" := Leaf(Int(1))]), Leaf(Int(2)), Map(map[]);
    assert Merged(a, c, Merge).kids == a.kids;
  }
}
