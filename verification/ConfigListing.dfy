/** Traversal of a configuration tree and the list of its paths. */
module ConfigListing {
  import opened Wrappers
  import opened ConfigTrees
  import opened ConfigPaths
  import opened ConfigLookup

  datatype Entry = Entry(path: seq<string>, node: Tree)

  /** What the traversal calls its handler with, in order. A key or an index is appended to the path as text, which
      splits it at separators. */
  ghost function Listing(path: seq<string>, t: Tree): seq<Entry>
    decreases t, 2, 0
  {
    (if Join(path) == "" then [] else [Entry(path, t)]) + Below(path, t)
  }

  ghost function Below(path: seq<string>, t: Tree): seq<Entry>
    decreases t, 1, 0
  {
    match t
    case Map(kids) => KidsBelow(path, t, kids.Keys)
    case Trees(nodes) => NodesBelow(path, nodes, 0)
    case _ => []
  }

  ghost function KidsBelow(path: seq<string>, t: Tree, keys: set<string>): seq<Entry>
    requires t.Map? && keys <= t.kids.Keys
    decreases t, 0, |keys|
  {
    if keys == {} then []
    else
      var k := First(keys);
      Listing(path + Sections(k), t.kids[k]) + KidsBelow(path, t, keys - {k})
  }

  ghost function NodesBelow(path: seq<string>, nodes: seq<Tree>, i: nat): seq<Entry>
    requires i <= |nodes|
    decreases nodes, 0, |nodes| - i
  {
    if i == |nodes| then []
    else Listing(path + Sections(NumberText(i)), nodes[i]) + NodesBelow(path, nodes, i + 1)
  }

  // ---------- the traversal ----------

  method NextEach(path: seq<string>, current: Tree, found: seq<Entry>) returns (r: seq<Entry>)
    ensures r == found + Listing(path, current)
    decreases current, 1
  {
    r := found;
    if Join(path) != "" {
      r := r + [Entry(path, current)];
    }
    if current.Map? {
      r := EachKid(path, current, r);
    } else if current.Trees? {
      r := EachNode(path, current.nodes, r);
    }
  }

  lemma KidsNext(path: seq<string>, t: Tree, keys: set<string>, r: seq<Entry>)
    requires t.Map? && {} < keys <= t.kids.Keys
    ensures r + KidsBelow(path, t, keys)
         == r + Listing(path + Sections(First(keys)), t.kids[First(keys)]) + KidsBelow(path, t, keys - {First(keys)})
  {
  }

  lemma NodesNext(path: seq<string>, nodes: seq<Tree>, i: nat, r: seq<Entry>)
    requires i < |nodes|
    ensures r + NodesBelow(path, nodes, i)
         == r + Listing(path + Sections(NumberText(i)), nodes[i]) + NodesBelow(path, nodes, i + 1)
  {
  }

  method EachKid(path: seq<string>, t: Tree, found: seq<Entry>) returns (r: seq<Entry>)
    requires t.Map?
    ensures r == found + KidsBelow(path, t, t.kids.Keys)
    decreases t, 0
  {
    r := found;
    var keys := t.kids.Keys;
    while keys != {}
      invariant keys <= t.kids.Keys
      invariant r + KidsBelow(path, t, keys) == found + KidsBelow(path, t, t.kids.Keys)
      decreases keys
    {
      FirstExists(keys);
      var k :| IsFirst(k, keys);
      FirstUnique(keys, k, First(keys));
      KidsNext(path, t, keys, r);
      r := NextEach(path + Sections(k), t.kids[k], r);
      keys := keys - {k};
    }
  }

  method EachNode(path: seq<string>, nodes: seq<Tree>, found: seq<Entry>) returns (r: seq<Entry>)
    ensures r == found + NodesBelow(path, nodes, 0)
    decreases nodes, 0
  {
    r := found;
    var i := 0;
    while i < |nodes|
      invariant i <= |nodes|
      invariant r + NodesBelow(path, nodes, i) == found + NodesBelow(path, nodes, 0)
    {
      NodesNext(path, nodes, i, r);
      r := NextEach(path + Sections(NumberText(i)), nodes[i], r);
      i := i + 1;
    }
  }

  /** The texts of all paths below a path, with the path itself if it is not the root. */
  method AllKeys(t: Tree, path: seq<string>) returns (r: Result<seq<string>, Fault>)
    ensures Lookup(t, path).Err? ==> r == Err(Lookup(t, path).error)
    ensures Lookup(t, path).Ok? ==> r.Ok? && var listed := Listing(path, Lookup(t, path).value);
      |r.value| == |listed| && forall i :: 0 <= i < |listed| ==> r.value[i] == Join(listed[i].path)
  {
    var node, _, _ := DoGet(t, path);
    if node.Err? { return Err(node.error); }
    var listed := NextEach(path, node.value, []);
    return Ok(seq(|listed|, i requires 0 <= i < |listed| => Join(listed[i].path)));
  }

  // ---------- every node exactly once, under a path that leads to it ----------

  ghost predicate Whole(path: seq<string>) {
    forall i :: 0 <= i < |path| ==> path[i] != "" && '.' !in path[i]
  }

  /** Keys are not empty and hold no separator, and indices fit an int. */
  ghost predicate WellKeyed(t: Tree) {
    match t
    case Map(kids) => forall k :: k in kids ==> k != "" && '.' !in k && WellKeyed(kids[k])
    case Trees(nodes) => |nodes| <= 0x8000_0000 && forall n :: n in nodes ==> WellKeyed(n)
    case _ => true
  }

  lemma {:induction false} WholeText(path: seq<string>)
    requires Whole(path)
    ensures Sections(Join(path)) == path
    ensures Join(path) == "" <==> path == []
  {
    TextRoundTrip(path);
  }

  lemma WholeStep(path: seq<string>, k: string)
    requires Whole(path) && k != "" && '.' !in k
    ensures Sections(k) == [k] && Whole(path + [k])
  {
    SplitPiece(k, "");
  }

  /** Every listed path leads to its node, also when it is taken from its text, and is not the root. */
  lemma {:induction false} ListedFound(root: Tree, path: seq<string>, t: Tree, e: Entry)
    requires Whole(path) && WellKeyed(t) && Lookup(root, path) == Ok(t) && e in Listing(path, t)
    ensures Whole(e.path) && path <= e.path && e.path != []
    ensures Lookup(root, Sections(Join(e.path))) == Ok(e.node)
    decreases t, 1, 0
  {
    WholeText(path);
    if e in Below(path, t) {
      if t.Map? {
        ListedKidFound(root, path, t, t.kids.Keys, e);
      } else {
        ListedNodeFound(root, path, t, 0, e);
      }
    }
  }

  lemma {:induction false} ListedKidFound(root: Tree, path: seq<string>, t: Tree, keys: set<string>, e: Entry)
    requires Whole(path) && WellKeyed(t) && Lookup(root, path) == Ok(t)
    requires t.Map? && keys <= t.kids.Keys && e in KidsBelow(path, t, keys)
    ensures Whole(e.path) && |path| < |e.path| && path == e.path[..|path|] && e.path[|path|] in keys
    ensures Lookup(root, Sections(Join(e.path))) == Ok(e.node)
    decreases t, 0, |keys|
  {
    var k := First(keys);
    WholeStep(path, k);
    if e in Listing(path + [k], t.kids[k]) {
      LookupAppend(root, path, [k]);
      ListedFound(root, path + [k], t.kids[k], e);
      assert e.path[..|path| + 1] == path + [k];
    } else {
      ListedKidFound(root, path, t, keys - {k}, e);
    }
  }

  lemma {:induction false} ListedNodeFound(root: Tree, path: seq<string>, t: Tree, i: nat, e: Entry)
    requires Whole(path) && WellKeyed(t) && Lookup(root, path) == Ok(t)
    requires t.Trees? && i <= |t.nodes| && e in NodesBelow(path, t.nodes, i)
    ensures Whole(e.path) && |path| < |e.path| && path == e.path[..|path|]
    ensures exists j :: i <= j < |t.nodes| && e.path[|path|] == NumberText(j)
    ensures Lookup(root, Sections(Join(e.path))) == Ok(e.node)
    decreases t, 0, |t.nodes| - i
  {
    var k := NumberText(i);
    NumberRoundTrip(i);
    WholeStep(path, k);
    if e in Listing(path + [k], t.nodes[i]) {
      LookupAppend(root, path, [k]);
      ListedFound(root, path + [k], t.nodes[i], e);
      assert e.path[..|path| + 1] == path + [k];
    } else {
      ListedNodeFound(root, path, t, i + 1, e);
    }
  }

  /** A path spelled as the traversal spells it: keys, and indices without leading zeros. */
  ghost predicate Spelled(t: Tree, path: seq<string>)
    decreases path
  {
    path == [] ||
    (Child(t, path[0]).Ok? && Spelled(Child(t, path[0]).value, path[1..])
     && (t.Trees? ==> exists i: nat :: i < |t.nodes| && path[0] == NumberText(i)))
  }

  /** Every node below is listed. */
  lemma {:induction false} FoundListed(path: seq<string>, t: Tree, q: seq<string>)
    requires Whole(path) && WellKeyed(t) && Spelled(t, q) && path + q != []
    ensures Lookup(t, q).Ok? && Entry(path + q, Lookup(t, q).value) in Listing(path, t)
    decreases t
  {
    WholeText(path);
    if q == [] {
      assert path + q == path;
    } else {
      var k := q[0];
      var n := Child(t, k).value;
      var i: nat := 0;
      if t.Trees? {
        i :| i < |t.nodes| && k == NumberText(i);
        NumberRoundTrip(i);
      }
      WholeStep(path, k);
      FoundListed(path + [k], n, q[1..]);
      assert path + [k] + q[1..] == path + q;
      var e := Entry(path + q, Lookup(n, q[1..]).value);
      if t.Map? {
        KidListed(path, t, t.kids.Keys, k, e);
      } else {
        NodeListed(path, t.nodes, 0, i, e);
      }
    }
  }

  lemma {:induction false} KidListed(path: seq<string>, t: Tree, keys: set<string>, k: string, e: Entry)
    requires t.Map? && keys <= t.kids.Keys && k in keys && e in Listing(path + Sections(k), t.kids[k])
    ensures e in KidsBelow(path, t, keys)
    decreases keys
  {
    if k != First(keys) { KidListed(path, t, keys - {First(keys)}, k, e); }
  }

  lemma {:induction false} NodeListed(path: seq<string>, nodes: seq<Tree>, i: nat, j: nat, e: Entry)
    requires i <= j < |nodes| && e in Listing(path + Sections(NumberText(j)), nodes[j])
    ensures e in NodesBelow(path, nodes, i)
    decreases j - i
  {
    if i < j { NodeListed(path, nodes, i + 1, j, e); }
  }

  /** At a map the keys are in order, and at an array the indices. */
  ghost predicate Ascends(t: Tree, a: string, b: string) {
    || (t.Map? && Before(a, b))
    || (t.Trees? && exists i: nat, j: nat :: i < j < |t.nodes| && a == NumberText(i) && b == NumberText(j))
  }

  /** A path comes before what is below it, and where two paths part the node there decides. */
  ghost predicate Precedes(root: Tree, p: seq<string>, q: seq<string>) {
    exists d: nat :: PartsAt(root, p, q, d)
  }

  ghost predicate PartsAt(root: Tree, p: seq<string>, q: seq<string>, d: nat) {
    && d <= |p| && d < |q| && p[..d] == q[..d]
    && (d == |p| || (Lookup(root, p[..d]).Ok? && Ascends(Lookup(root, p[..d]).value, p[d], q[d])))
  }

  /** Every entry comes before all that are behind it. */
  ghost predicate Ordered(root: Tree, entries: seq<Entry>) {
    entries == [] ||
    ((forall e :: e in entries[1..] ==> Precedes(root, entries[0].path, e.path)) && Ordered(root, entries[1..]))
  }

  lemma {:induction false} OrderedAppend(root: Tree, a: seq<Entry>, b: seq<Entry>)
    requires Ordered(root, a) && Ordered(root, b)
    requires forall x, y :: x in a && y in b ==> Precedes(root, x.path, y.path)
    ensures Ordered(root, a + b)
  {
    if a == [] {
      assert a + b == b;
    } else {
      assert (a + b)[1..] == a[1..] + b;
      OrderedAppend(root, a[1..], b);
    }
  }

  /** The list goes down before it goes on, through the keys of maps in their order and through arrays by index. */
  lemma {:induction false} ListedInOrder(root: Tree, path: seq<string>, t: Tree)
    requires Whole(path) && WellKeyed(t) && Lookup(root, path) == Ok(t)
    ensures Ordered(root, Listing(path, t))
    decreases t, 1, 0
  {
    WholeText(path);
    var here := if path == [] then [] else [Entry(path, t)];
    var below := Below(path, t);
    forall e | e in below ensures Precedes(root, path, e.path) {
      if t.Map? {
        ListedKidFound(root, path, t, t.kids.Keys, e);
      } else {
        ListedNodeFound(root, path, t, 0, e);
      }
      assert PartsAt(root, path, e.path, |path|);
    }
    if t.Map? {
      KidsInOrder(root, path, t, t.kids.Keys);
    } else if t.Trees? {
      NodesInOrder(root, path, t, 0);
    }
    OrderedAppend(root, here, below);
  }

  lemma {:induction false} KidsInOrder(root: Tree, path: seq<string>, t: Tree, keys: set<string>)
    requires Whole(path) && WellKeyed(t) && Lookup(root, path) == Ok(t) && t.Map? && keys <= t.kids.Keys
    ensures Ordered(root, KidsBelow(path, t, keys))
    decreases t, 0, |keys|
  {
    if keys != {} {
      var k := First(keys);
      WholeStep(path, k);
      LookupAppend(root, path, [k]);
      ListedInOrder(root, path + [k], t.kids[k]);
      KidsInOrder(root, path, t, keys - {k});
      var a, b := Listing(path + [k], t.kids[k]), KidsBelow(path, t, keys - {k});
      forall x, y | x in a && y in b ensures Precedes(root, x.path, y.path) {
        ListedFound(root, path + [k], t.kids[k], x);
        ListedKidFound(root, path, t, keys - {k}, y);
        PartAfter(root, path, k, x.path, y.path);
      }
      OrderedAppend(root, a, b);
    }
  }

  lemma PartAfter(root: Tree, path: seq<string>, k: string, p: seq<string>, q: seq<string>)
    requires path + [k] <= p && |path| < |q| && path == q[..|path|]
    requires Lookup(root, path).Ok? && Ascends(Lookup(root, path).value, k, q[|path|])
    ensures Precedes(root, p, q)
  {
    assert p[..|path|] == path && p[|path|] == k;
    assert PartsAt(root, p, q, |path|);
  }

  lemma {:induction false} NodesInOrder(root: Tree, path: seq<string>, t: Tree, i: nat)
    requires Whole(path) && WellKeyed(t) && Lookup(root, path) == Ok(t) && t.Trees? && i <= |t.nodes|
    ensures Ordered(root, NodesBelow(path, t.nodes, i))
    decreases t, 0, |t.nodes| - i
  {
    if i < |t.nodes| {
      var k := NumberText(i);
      NumberRoundTrip(i);
      WholeStep(path, k);
      LookupAppend(root, path, [k]);
      ListedInOrder(root, path + [k], t.nodes[i]);
      NodesInOrder(root, path, t, i + 1);
      var a, b := Listing(path + [k], t.nodes[i]), NodesBelow(path, t.nodes, i + 1);
      forall x, y | x in a && y in b ensures Precedes(root, x.path, y.path) {
        ListedFound(root, path + [k], t.nodes[i], x);
        ListedNodeFound(root, path, t, i + 1, y);
        PartAfter(root, path, k, x.path, y.path);
      }
      OrderedAppend(root, a, b);
    }
  }

  lemma NotBeforeItself(root: Tree, p: seq<string>)
    ensures !Precedes(root, p, p)
  {
    if d: nat :| PartsAt(root, p, p, d) {
      var t := Lookup(root, p[..d]).value;
      BeforeIrreflexive(p[d]);
      if t.Trees? {
        var i: nat, j: nat :| i < j < |t.nodes| && p[d] == NumberText(i) && p[d] == NumberText(j);
        NumberTextUnique(i, j);
      }
    }
  }

  /** No path is listed twice. */
  lemma ListedOnce(root: Tree, path: seq<string>, t: Tree)
    requires Whole(path) && WellKeyed(t) && Lookup(root, path) == Ok(t)
    ensures var listed := Listing(path, t);
      forall i, j :: 0 <= i < j < |listed| ==> listed[i].path != listed[j].path
  {
    ListedInOrder(root, path, t);
    OrderedOnce(root, Listing(path, t));
  }

  lemma {:induction false} OrderedOnce(root: Tree, entries: seq<Entry>)
    requires Ordered(root, entries)
    ensures forall i, j :: 0 <= i < j < |entries| ==> entries[i].path != entries[j].path
  {
    if entries != [] {
      OrderedOnce(root, entries[1..]);
      NotBeforeItself(root, entries[0].path);
      assert forall j :: 0 < j < |entries| ==> entries[j] == entries[1..][j - 1] && entries[j] in entries[1..];
    }
  }
}
