/** The configuration tree as an object, and the settings kept in one. */
module ConfigTreeObjects {
  import opened Wrappers
  import opened ConfigTrees
  import opened ConfigPaths
  import opened ConfigLookup
  import opened ConfigMerge
  import opened ConfigEdit
  import opened JsonEvents
  import opened JsonRoundTrip
  import JsonProcessor

  datatype Outcome = Done | ParseFailed | Failed(fault: Fault) | Terminated

  /** Writing to a node what planting makes no difference of leaves the planted tree the same. */
  lemma Rewritten(t: Tree, p: seq<string>, q: seq<string>, n: Tree, x: Tree)
    requires Lookup(t, p).Ok? && Planted(Lookup(t, p).value, q, x) == Planted(n, q, x)
    ensures Planted(t, p, n).Ok?
    ensures Lookup(Planted(t, p, n).value, p) == Ok(n)
    ensures Planted(Planted(t, p, n).value, p + q, x) == Planted(t, p + q, x)
  {
    PlantedOk(t, p, n);
    PlantedLookup(t, p, n);
    var r := Planted(t, p, n).value;
    PlantedAppend(t, p, q, x);
    PlantedAppend(r, p, q, x);
    if Planted(n, q, x).Ok? { PlantedTwice(t, p, n, Planted(n, q, x).value); }
  }

  /** So does adding the first section that is missing in a map. */
  lemma SectionAdded(t: Tree, p: seq<string>, q: seq<string>, x: Tree)
    requires Lookup(t, p).Ok? && Lookup(t, p).value.Map? && q != [] && q[0] != "" && q[0] !in Lookup(t, p).value.kids
    ensures var n := Map(Lookup(t, p).value.kids[q[0] := Unset]);
      && Planted(t, p, n).Ok? && Lookup(Planted(t, p, n).value, p + [q[0]]) == Ok(Unset)
      && Planted(Planted(t, p, n).value, p + q, x) == Planted(t, p + q, x)
  {
    var kids := Lookup(t, p).value.kids;
    var m, n := Planted(Unset, q[1..], x).value, Map(kids[q[0] := Unset]);
    assert kids[q[0] := Unset][q[0] := m] == kids[q[0] := m];
    Rewritten(t, p, q, n, x);
    LookupAppend(Planted(t, p, n).value, p, [q[0]]);
  }

  lemma PlantedAny(t: Tree, p: seq<string>, u: Tree, v: Tree)
    ensures Planted(t, p, u).Ok? <==> Planted(t, p, v).Ok?
  {
    if Planted(t, p, u).Ok? {
      PlantedLookup(t, p, u);
      PlantedTwice(t, p, u, v);
      PlantedOk(Planted(t, p, u).value, p, v);
    } else if Planted(t, p, v).Ok? {
      PlantedLookup(t, p, v);
      PlantedTwice(t, p, v, u);
      PlantedOk(Planted(t, p, v).value, p, u);
    }
  }

  /** Merges scalar arrays in place; the elements both have are overwritten first, then the rest is appended. */
  method MergeScalars(a: seq<Scalar>, b: seq<Scalar>, mode: ArrayMerge) returns (r: seq<Scalar>)
    ensures r == Flat(a, b, mode)
  {
    if mode != Merge {
      return match mode case Append => a + b case Prepend => b + a case Override => b case _ => a;
    }
    r := a;
    var i := 0;
    while i < |a| && i < |b|
      invariant i <= |a| == |r| && i <= |b|
      invariant forall k :: 0 <= k < |r| ==> r[k] == if k < i then b[k] else a[k]
    {
      r := r[i := b[i]];
      i := i + 1;
    }
    if |b| > |a| {
      r := r + b[|a|..];
    }
    assert r == Flat(a, b, mode);
  }

  method MergeTrees(a: seq<Tree>, b: seq<Tree>) returns (r: seq<Tree>)
    ensures r == MergedNodes(a, b)
    decreases b, 0
  {
    r := a;
    var i := 0;
    while i < |a| && i < |b|
      invariant i <= |a| == |r| && i <= |b|
      invariant forall k :: 0 <= k < |r| ==> r[k] == if k < i then Merged(a[k], b[k], Merge) else a[k]
    {
      var n := MergeTree(a[i], b[i], Merge);
      r := r[i := n];
      i := i + 1;
    }
    if |b| > |a| {
      r := r + b[|a|..];
    }
    MergedNodesAt(a, b, 0);
    forall k | 0 <= k < |r| ensures r[k] == MergedNodes(a, b)[k] {
      MergedNodesAt(a, b, k);
    }
  }

  method MergeKids(a: map<string, Tree>, t: Tree, mode: ArrayMerge) returns (r: map<string, Tree>)
    requires t.Map?
    ensures Map(r) == Merged(Map(a), t, mode)
    decreases t, 0
  {
    r := a;
    var keys := t.kids.Keys;
    ghost var all := Merged(Map(a), t, mode).kids;
    while keys != {}
      invariant keys <= t.kids.Keys
      invariant forall k :: k in r <==> k in a || (k in t.kids && k !in keys)
      invariant forall k :: k in r ==> r[k] == if k in keys then a[k] else all[k]
      decreases keys
    {
      var k :| k in keys;
      var n := t.kids[k];
      if k in r {
        n := MergeTree(r[k], n, mode);
      }
      assert n == all[k];
      r := r[k := n];
      keys := keys - {k};
    }
    assert r == all;
  }

  /** Merges one node into another. */
  method MergeTree(current: Tree, other: Tree, mode: ArrayMerge) returns (r: Tree)
    ensures r == Merged(current, other, mode)
    decreases other, 1
  {
    if current == Unset { return other; }
    if other == Unset { return current; }
    if other.Leaf? || !SameKind(current, other) { return other; }
    match other {
      case Map(_) =>
        var kids := MergeKids(current.kids, other, mode);
        return Map(kids);
      case Trees(nodes) =>
        if mode == Merge {
          var merged := MergeTrees(current.nodes, nodes);
          return Trees(merged);
        }
        return Trees(Flat(current.nodes, nodes, mode));
      case Scalars(elem, items) =>
        var merged := MergeScalars(current.items, items, mode);
        return Scalars(elem, merged);
      case _ =>
        assert false;
    }
  }

  class ConfigTree {
    var root: Tree

    constructor ()
      ensures root == Unset
    {
      root := Unset;
    }

    /** Writes through a reference to the node at a path. */
    method Put(path: seq<string>, n: Tree)
      requires Planted(root, path, n).Ok?
      modifies this
      ensures Ok(root) == Planted(old(root), path, n)
    {
      root := Planted(root, path, n).value;
    }

    /** Creates what is missing on the way to a path. */
    method BuildPath(path: seq<string>) returns (fault: Option<Fault>)
      modifies this
      ensures var r := Planted(old(root), path, Find(old(root), path));
        if r.Ok? then fault.None? && root == r.value else fault == Some(r.error) && root == old(root)
    {
      ghost var x := Find(root, path);
      var r, depth, current := DoGet(root, path);
      var i := depth;
      while i < |path|
        invariant depth <= i <= |path|
        invariant Lookup(root, path[..i]) == Ok(current)
        invariant Planted(root, path, x) == Planted(old(root), path, x)
        invariant i == depth ==> root == old(root) && (i < |path| ==> path[i] != "" && Child(current, path[i]).Err?)
        invariant i > depth ==> current == Unset
      {
        var section := path[i];
        ghost var p, q := path[..i], path[i..];
        assert path == p + q && path[..i + 1] == p + [section] && q[0] == section;
        LookupAppend(root, p, [section]);
        if section != "" {
          if current == Unset || (!current.Map? && !current.Trees?) || (current.Trees? && NumberAt(section).None?) {
            Rewritten(root, p, q, Map(map[]), x);
            current := Map(map[]);
            Put(path[..i], current);
          }
          if current.Trees? {
            PlantedAppend(root, p, q, x);
            return Some(OutOfRange);
          }
          SectionAdded(root, p, q, x);
          current := Map(current.kids[section := Unset]);
          Put(path[..i], current);
          current := Unset;
        }
        i := i + 1;
      }
      assert path[..i] == path;
      PlantedOk(root, path, x);
      fault := None;
    }

    /** Merges a tree into the node at a path, which is created if it is missing. */
    method MergeAt(other: Tree, path: seq<string>, mode: ArrayMerge) returns (fault: Option<Fault>)
      modifies this
      ensures var r := MergedAt(old(root), other, path, mode);
        if r.Ok? then fault.None? && root == r.value else fault == Some(r.error) && root == old(root)
    {
      ghost var t, n := root, Find(root, path);
      ghost var v := Merged(n, other, mode);
      PlantedAny(t, path, n, v);
      fault := BuildPath(path);
      if fault.Some? { return; }
      PlantedLookup(t, path, n);
      PlantedTwice(t, path, n, v);
      var r, _, _ := DoGet(root, path);
      var merged := MergeTree(r.value, other, mode);
      Put(path, merged);
    }

    /** Erases the last section from the node before it; false stands for the end of the program. */
    method Remove(path: seq<string>) returns (ok: bool)
      modifies this
      ensures Removed(old(root), path) == if ok then Some(root) else None
      ensures !ok ==> root == old(root)
    {
      if path == [] {
        root := Unset;
        return true;
      }
      var up := path[..|path| - 1];
      var r, _, _ := DoGet(root, up);
      if r.Err? { return true; }
      if !r.value.Map? { return false; }
      PlantedOk(root, up, Map(r.value.kids - {path[|path| - 1]}));
      Put(up, Map(r.value.kids - {path[|path| - 1]}));
      return true;
    }

    /** Copies the node at a path of a source to a path here, by way of JSON. A printable node is merged here as it is;
        any other arrives changed or not at all. */
    method Copy(source: ConfigTree, from: seq<string>, to: seq<string>) returns (outcome: Outcome)
      requires DistinctKeys(ToJson(Find(source.root, from)))
      modifies this
      ensures var n := old(Find(source.root, from)); Load(ToJson(n)) == Some(n) <==> Printable(n)
      ensures var loaded := Load(ToJson(old(Find(source.root, from))));
        if loaded.None? then outcome == ParseFailed && root == old(root)
        else MergeReported(old(root), loaded.value, to, outcome)
    {
      ghost var t := root;
      var r, _, _ := DoGet(source.root, from);
      var n := if r.Ok? then r.value else Unset;
      ReloadsPrintable(n);
      var loaded := JsonProcessor.Rewrite(n);
      if loaded.None? { return ParseFailed; }
      var fault := MergeAt(loaded.value, to, Merge);
      outcome := if fault.None? then Done else Failed(fault.value);
    }

    /** What an outcome says about merging a tree at a path. */
    ghost predicate MergeReported(before: Tree, other: Tree, path: seq<string>, outcome: Outcome)
      reads this
    {
      match MergedAt(before, other, path, Merge)
      case Ok(t) => outcome == Done && root == t
      case Err(e) => outcome == Failed(e) && root == before
    }
  }

  /** Settings kept in a configuration tree and changed as JSON. */
  class ClientAppFileSettings {
    const configTree: ConfigTree

    constructor ()
      ensures fresh(configTree) && configTree.root == Unset
    {
      configTree := new ConfigTree();
    }

    /** Replaces the value at a path. JSON that cannot be read, and a path that is refused, leave the settings as they
        were. */
    method SetJson(path: seq<string>, events: seq<Event>, ghost j: Json) returns (outcome: Outcome)
      requires events == Events(j) && DistinctKeys(j)
      modifies configTree
      ensures outcome.ParseFailed? <==> !Homogeneous(j)
      ensures Homogeneous(j) ==> Load(j).Some? && ReplaceReported(old(configTree.root), path, Load(j).value, outcome)
      ensures (path == [] || path[|path| - 1] != "") && !outcome.Done? ==> configTree.root == old(configTree.root)
      ensures (path == [] || path[|path| - 1] != "") && outcome.Done? ==>
        Lookup(configTree.root, path) == Ok(Load(j).value)
    {
      var tmp := JsonProcessor.Parse(events, j);
      if tmp.None? { return ParseFailed; }
      if path == [] || path[|path| - 1] != "" {
        ReplacedLookup(configTree.root, path, tmp.value, path);
      }
      var ok := configTree.Remove(path);
      if !ok { return Terminated; }
      var fault := configTree.MergeAt(tmp.value, path, Merge);
      outcome := if fault.None? then Done else Failed(fault.value);
    }

    ghost predicate ReplaceReported(before: Tree, path: seq<string>, v: Tree, outcome: Outcome)
      reads configTree
    {
      match Replaced(before, path, v)
      case None => outcome == Terminated
      case Some(Err(e)) => outcome == Failed(e)
      case Some(Ok(t)) => outcome == Done && configTree.root == t
    }

    /** The JSON of the value at a path, if it is set. */
    method GetJson(path: seq<string>) returns (r: Option<seq<Event>>)
      ensures var n := Find(configTree.root, path); r == if n == Unset then None else Some(Events(ToJson(n)))
    {
      var n, _, _ := DoGet(configTree.root, path);
      if n.Err? || n.value == Unset { return None; }
      var w := new JsonProcessor.Writer();
      w.WriteTree(n.value);
      assert w.events == Events(ToJson(n.value));
      return Some(w.events);
    }
  }
}
