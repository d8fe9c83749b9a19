/** Changing the node at a path: creation of missing sections, removal, merging in place and replacement. */
module ConfigEdit {
  import opened Wrappers
  import opened ConfigTrees
  import opened ConfigPaths
  import opened ConfigLookup
  import opened ConfigMerge

  function SetChild(t: Tree, section: string, n: Tree): (r: Tree)
    requires Child(t, section).Ok?
    ensures Child(r, section) == Ok(n)
  {
    if t.Map? then Map(t.kids[section := n]) else Trees(t.nodes[NumberAt(section).value := n])
  }

  /** An array refuses a number that is past its end. */
  predicate Refuses(t: Tree, section: string) {
    t.Trees? && NumberAt(section).Some? && NumberAt(section).value >= |t.nodes|
  }

  /** The tree with v at a path. Missing sections are created, and a node that cannot have the next section becomes a
      map. */
  function Planted(t: Tree, path: seq<string>, v: Tree): (r: Result<Tree, Fault>)
    ensures !t.Trees? && !t.Map? ==> r.Ok?
    ensures r.Err? ==> r.error == OutOfRange
    decreases path
  {
    if path == [] then Ok(v)
    else if path[0] == "" then Planted(t, path[1..], v)
    else
      match Child(t, path[0])
      case Ok(n) =>
        (match Planted(n, path[1..], v)
         case Ok(m) => Ok(SetChild(t, path[0], m))
         case Err(e) => Err(e))
      case Err(_) =>
        if Refuses(t, path[0]) then Err(OutOfRange)
        else Ok(Map((if t.Map? then t.kids else map[])[path[0] := Planted(Unset, path[1..], v).value]))
  }

  lemma {:induction false} PlantedLookup(t: Tree, path: seq<string>, v: Tree)
    requires Planted(t, path, v).Ok?
    ensures Lookup(Planted(t, path, v).value, path) == Ok(v)
    decreases path
  {
    if path != [] {
      if path[0] == "" {
        PlantedLookup(t, path[1..], v);
      } else {
        PlantedLookup(Under(t, path[0]), path[1..], v);
      }
    }
  }

  /** The node before section k is an array of trees, and the section is an index past its end. */
  ghost predicate PastEnd(t: Tree, path: seq<string>, k: nat)
    requires k < |path|
  {
    && path[k] != "" && Lookup(t, path[..k]).Ok?
    && var n, i := Lookup(t, path[..k]).value, NumberAt(path[k]); n.Trees? && i.Some? && i.value >= |n.nodes|
  }

  /** Planting is refused exactly where a section is an index past the end of the array it is reached in. */
  lemma {:induction false} PlantedRefused(t: Tree, path: seq<string>, v: Tree)
    ensures Planted(t, path, v).Err? <==> exists k: nat :: k < |path| && PastEnd(t, path, k)
    decreases path
  {
    if path != [] {
      var n, rest := if path[0] == "" then t else Under(t, path[0]), path[1..];
      forall k: nat | 0 < k < |path| ensures path[..k][0] == path[0] && path[..k][1..] == rest[..k - 1] {}
      assert path[..0] == [];
      if path[0] == "" || Child(t, path[0]).Ok? {
        PlantedRefused(n, rest, v);
        if k: nat :| k < |rest| && PastEnd(n, rest, k) {
          assert PastEnd(t, path, k + 1);
        }
        if k: nat :| k < |path| && PastEnd(t, path, k) {
          assert k > 0 && PastEnd(n, rest, k - 1);
        }
      } else if Refuses(t, path[0]) {
        assert PastEnd(t, path, 0);
      }
    }
  }

  lemma {:induction false} PlantedOk(t: Tree, path: seq<string>, v: Tree)
    requires Lookup(t, path).Ok?
    ensures Planted(t, path, v).Ok?
    ensures Planted(t, path, Lookup(t, path).value) == Ok(t)
    decreases path
  {
    if path != [] {
      if path[0] == "" {
        PlantedOk(t, path[1..], v);
      } else {
        PlantedOk(Child(t, path[0]).value, path[1..], v);
        if t.Map? {
          assert t.kids[path[0] := t.kids[path[0]]] == t.kids;
        } else {
          var pos := NumberAt(path[0]).value;
          assert t.nodes[pos := t.nodes[pos]] == t.nodes;
        }
      }
    }
  }

  lemma SetChildTwice(t: Tree, section: string, m: Tree, n: Tree)
    requires Child(t, section).Ok?
    ensures SetChild(SetChild(t, section, m), section, n) == SetChild(t, section, n)
  {
    if t.Map? { assert t.kids[section := m][section := n] == t.kids[section := n]; }
  }

  lemma NewPlantedTwice(t: Tree, path: seq<string>, u: Tree, v: Tree)
    requires path != [] && path[0] != "" && Child(t, path[0]).Err? && Planted(t, path, u).Ok?
    requires Planted(Planted(Unset, path[1..], u).value, path[1..], v) == Planted(Unset, path[1..], v)
    ensures Planted(Planted(t, path, u).value, path, v) == Planted(t, path, v)
  {
    var kids := if t.Map? then t.kids else map[];
    var m, n := Planted(Unset, path[1..], u).value, Planted(Unset, path[1..], v).value;
    assert kids[path[0] := m][path[0] := n] == kids[path[0] := n];
  }

  /** Planting twice at one path: the last wins. */
  lemma {:induction false} PlantedTwice(t: Tree, path: seq<string>, u: Tree, v: Tree)
    requires Planted(t, path, u).Ok?
    ensures Planted(Planted(t, path, u).value, path, v) == Planted(t, path, v)
    decreases path
  {
    if path != [] {
      if path[0] == "" {
        PlantedTwice(t, path[1..], u, v);
      } else {
        PlantedTwice(Under(t, path[0]), path[1..], u, v);
        if Child(t, path[0]).Ok? && Planted(t, path, v).Ok? {
          SetChildTwice(t, path[0], Planted(Under(t, path[0]), path[1..], u).value,
                        Planted(Under(t, path[0]), path[1..], v).value);
        } else if Child(t, path[0]).Err? {
          NewPlantedTwice(t, path, u, v);
        }
      }
    }
  }

  /** Planting at a longer path is planting in the node at the shorter one. */
  lemma {:induction false} PlantedAppend(t: Tree, p: seq<string>, q: seq<string>, v: Tree)
    requires Lookup(t, p).Ok?
    ensures var n := Lookup(t, p).value;
      Planted(t, p + q, v) == if Planted(n, q, v).Ok? then Planted(t, p, Planted(n, q, v).value) else Planted(n, q, v)
    decreases p
  {
    if p == [] {
      assert p + q == q;
    } else {
      assert (p + q)[1..] == p[1..] + q;
      if p[0] == "" {
        PlantedAppend(t, p[1..], q, v);
      } else {
        PlantedAppend(Child(t, p[0]).value, p[1..], q, v);
        if Planted(Lookup(t, p).value, q, v).Ok? {
          PlantedOk(Child(t, p[0]).value, p[1..], Planted(Lookup(t, p).value, q, v).value);
        }
      }
    }
  }

  // ---------- what planting leaves alone ----------

  /** Two sections lead to the same node. */
  predicate SameStep(t: Tree, s: string, u: string) {
    if t.Trees? && NumberAt(s).Some? && NumberAt(u).Some? then NumberAt(s) == NumberAt(u) else s == u
  }

  /** The paths part ways in the tree before either ends. */
  predicate Apart(t: Tree, p: seq<string>, q: seq<string>)
    decreases |p| + |q|
  {
    if p == [] || q == [] then false
    else if p[0] == "" then Apart(t, p[1..], q)
    else if q[0] == "" then Apart(t, p, q[1..])
    else SameStep(t, p[0], q[0]) ==> Apart(Under(t, p[0]), p[1..], q[1..])
  }

  /** The paths part at an array of trees that planting the first turns into a map, because its section is no number. */
  predicate InDropped(t: Tree, p: seq<string>, q: seq<string>)
    decreases |p| + |q|
  {
    if p == [] || q == [] then false
    else if p[0] == "" then InDropped(t, p[1..], q)
    else if q[0] == "" then InDropped(t, p, q[1..])
    else if SameStep(t, p[0], q[0]) then InDropped(Under(t, p[0]), p[1..], q[1..])
    else t.Trees? && NumberAt(p[0]).None?
  }

  /** At a path that parts from the planted one, what was found is found, except exactly in an array that is dropped, of
      which nothing is left. */
  lemma {:induction false} PlantedApart(t: Tree, p: seq<string>, v: Tree, q: seq<string>)
    requires Planted(t, p, v).Ok? && Apart(t, p, q)
    ensures Find(Planted(t, p, v).value, q) == if InDropped(t, p, q) then Unset else Find(t, q)
    decreases |p| + |q|
  {
    var r := Planted(t, p, v).value;
    if p[0] == "" {
      PlantedApart(t, p[1..], v, q);
    } else if q[0] == "" {
      PlantedApart(t, p, v, q[1..]);
    } else {
      FindUnder(t, q);
      FindUnder(r, q);
      FindUnset(q[1..]);
      if SameStep(t, p[0], q[0]) {
        assert Under(r, q[0]) == Planted(Under(t, p[0]), p[1..], v).value;
        assert Under(t, q[0]) == Under(t, p[0]);
        PlantedApart(Under(t, p[0]), p[1..], v, q[1..]);
      } else {
        assert Under(r, q[0]) == if t.Trees? && NumberAt(p[0]).None? then Unset else Under(t, q[0]);
      }
    }
  }

  /** A section that is no number, planted in an array of one leaf, loses the leaf. */
  lemma ArrayDropped(leaf: Scalar, v: Tree)
    ensures var t := Trees([Leaf(leaf)]);
      Find(t, ["0"]) == Leaf(leaf) && Planted(t, ["x"], v).Ok? && Find(Planted(t, ["x"], v).value, ["0"]) == Unset
  {
    var t := Trees([Leaf(leaf)]);
    NumberRoundTrip(0);
    assert NumberText(0) == "0";
    assert Child(t, "0") == Ok(Leaf(leaf));
    assert Find(t, ["0"]) == Leaf(leaf) by { FindUnder(t, ["0"]); assert ["0"][1..] == []; }
    PlantedApart(t, ["x"], v, ["0"]);
  }

  // ---------- the operations ----------

  /** What is left after removing a path; None stands for the end of the program: the parent exists and is not a map. */
  function Removed(t: Tree, path: seq<string>): Option<Tree> {
    if path == [] then Some(Unset)
    else
      var up, last := path[..|path| - 1], path[|path| - 1];
      match Lookup(t, up)
      case Err(_) => Some(t)
      case Ok(n) =>
        if !n.Map? then None
        else
          match Planted(t, up, Map(n.kids - {last}))
          case Ok(r) => Some(r)
          case Err(_) => None
  }

  function MergedAt(t: Tree, other: Tree, path: seq<string>, mode: ArrayMerge): Result<Tree, Fault> {
    Planted(t, path, Merged(Find(t, path), other, mode))
  }

  /** Removing stops the program exactly when the parent is there and is no map; a removed path with a last section is
      not found, and a path that parts from it still is what it was. */
  lemma RemovedLookup(t: Tree, path: seq<string>, q: seq<string>)
    requires path != []
    ensures var up := Lookup(t, path[..|path| - 1]); Removed(t, path).None? <==> up.Ok? && !up.value.Map?
    ensures Removed(t, path).Some? && path[|path| - 1] != "" ==> Lookup(Removed(t, path).value, path).Err?
    ensures Removed(t, path).Some? && path[|path| - 1] != "" && Apart(t, path, q) ==>
      Find(Removed(t, path).value, q) == Find(t, q)
  {
    var up, last := path[..|path| - 1], path[|path| - 1];
    assert path == up + [last];
    LookupAppend(t, up, [last]);
    if Lookup(t, up).Ok? && Lookup(t, up).value.Map? {
      var left := Map(Lookup(t, up).value.kids - {last});
      PlantedOk(t, up, left);
      var r := Planted(t, up, left).value;
      PlantedLookup(t, up, left);
      LookupAppend(r, up, [last]);
      if last != "" && Apart(t, path, q) { RemovedApart(t, up, last, q); }
    }
  }

  lemma {:induction false} RemovedApart(t: Tree, up: seq<string>, last: string, q: seq<string>)
    requires last != "" && Lookup(t, up).Ok? && Lookup(t, up).value.Map? && Apart(t, up + [last], q)
    ensures var r := Planted(t, up, Map(Lookup(t, up).value.kids - {last}));
      r.Ok? && Find(r.value, q) == Find(t, q)
    decreases |up| + |q|
  {
    var left := Map(Lookup(t, up).value.kids - {last});
    PlantedOk(t, up, left);
    var r := Planted(t, up, left).value;
    if up != [] {
      assert (up + [last])[1..] == up[1..] + [last];
    }
    if up != [] && up[0] == "" {
      RemovedApart(t, up[1..], last, q);
    } else if q[0] == "" {
      RemovedApart(t, up, last, q[1..]);
    } else {
      FindUnder(t, q);
      FindUnder(r, q);
      if up != [] && SameStep(t, up[0], q[0]) {
        RemovedApart(Under(t, up[0]), up[1..], last, q[1..]);
      }
    }
  }

  lemma {:induction false} RemovalKeepsShape(t: Tree, up: seq<string>, last: string, q: seq<string>)
    requires Lookup(t, up).Ok? && Lookup(t, up).value.Map?
    requires Planted(t, up, Map(Lookup(t, up).value.kids - {last})).Ok?
    ensures var r := Planted(t, up, Map(Lookup(t, up).value.kids - {last})).value;
      && Apart(r, up + [last], q) == Apart(t, up + [last], q)
      && InDropped(r, up + [last], q) == InDropped(t, up + [last], q)
    decreases |up| + |q|
  {
    var path := up + [last];
    if up != [] { assert path[1..] == up[1..] + [last]; }
    if up != [] && up[0] == "" {
      RemovalKeepsShape(t, up[1..], last, q);
    } else if q != [] && q[0] == "" && path[0] != "" {
      RemovalKeepsShape(t, up, last, q[1..]);
    } else if up != [] {
      RemovalKeepsShape(Under(t, up[0]), up[1..], last, if q == [] then [] else q[1..]);
    }
  }

  /** Removing a path and merging there, as settings do to replace a value. */
  function Replaced(t: Tree, path: seq<string>, v: Tree): Option<Result<Tree, Fault>> {
    match Removed(t, path)
    case None => None
    case Some(r) => Some(MergedAt(r, v, path, Merge))
  }

  /** Replacing puts exactly the new value at the path, not a blend with the old one; a refused path leaves the tree as
      it was; and a path that parts from the replaced one changes only in an array that is dropped. */
  lemma ReplacedLookup(t: Tree, path: seq<string>, v: Tree, q: seq<string>)
    requires path == [] || path[|path| - 1] != ""
    ensures var r := Replaced(t, path, v);
      && (r.Some? && r.value.Ok? ==> Lookup(r.value.value, path) == Ok(v))
      && (r.Some? && r.value.Err? ==> Removed(t, path) == Some(t) && r.value.error == OutOfRange)
      && (r.Some? && r.value.Ok? && Apart(t, path, q) ==>
            Find(r.value.value, q) == if InDropped(t, path, q) then Unset else Find(t, q))
  {
    var removed := Removed(t, path);
    if removed.Some? {
      var r := removed.value;
      if path != [] {
        var up, last := path[..|path| - 1], path[|path| - 1];
        assert path == up + [last];
        RemovedLookup(t, path, q);
        if Lookup(t, up).Ok? {
          RemovalKeepsShape(t, up, last, q);
          PlantedLookup(t, up, Map(Lookup(t, up).value.kids - {last}));
          PlantedAppend(r, up, [last], v);
          PlantedOk(r, up, Planted(Lookup(r, up).value, [last], v).value);
        }
      }
      assert Merged(Find(r, path), v, Merge) == v;
      if Planted(r, path, v).Ok? {
        PlantedLookup(r, path, v);
        if Apart(t, path, q) { PlantedApart(r, path, v, q); }
      }
    }
  }

  /** A path that ends in an empty section names the node before it, which is not removed: only its key "" is, and the
      new value is blended into the rest. */
  lemma TrailingSeparatorBlends(t: Tree, up: seq<string>, v: Tree)
    requires Lookup(t, up).Ok? && Lookup(t, up).value.Map?
    ensures var path := up + [""];
      && Removed(t, path).Some? && Replaced(t, path, v).Some? && Replaced(t, path, v).value.Ok?
      && Replaced(t, path, v).value == MergedAt(Removed(t, path).value, v, up, Merge)
      && Lookup(Replaced(t, path, v).value.value, path)
           == Ok(Merged(Map(Lookup(t, up).value.kids - {""}), v, Merge))
  {
    var path := up + [""];
    assert path[..|up|] == up;
    var left := Map(Lookup(t, up).value.kids - {""});
    PlantedOk(t, up, left);
    PlantedLookup(t, up, left);
    var r := Planted(t, up, left).value;
    LookupAppend(r, up, [""]);
    PlantedAppend(r, up, [""], Merged(left, v, Merge));
    PlantedOk(r, up, Merged(left, v, Merge));
    PlantedLookup(r, path, Merged(left, v, Merge));
  }

  /** A replaced path holds exactly the new value if and only if its last section is not empty, or its parent is
      missing, or the new value already covers what is left of the parent. */
  lemma ReplacedExactly(t: Tree, path: seq<string>, v: Tree)
    requires path != [] && Replaced(t, path, v).Some? && Replaced(t, path, v).value.Ok?
    ensures var up, last := path[..|path| - 1], path[|path| - 1];
      Lookup(Replaced(t, path, v).value.value, path) == Ok(v) <==>
        || last != "" || Lookup(t, up).Err?
        || (Lookup(t, up).value.Map? && Merged(Map(Lookup(t, up).value.kids - {""}), v, Merge) == v)
  {
    var up, last := path[..|path| - 1], path[|path| - 1];
    assert path == up + [last];
    if last != "" {
      ReplacedLookup(t, path, v, []);
    } else if Lookup(t, up).Ok? {
      TrailingSeparatorBlends(t, up, v);
    } else {
      LookupAppend(t, up, [last]);
      PlantedLookup(t, path, v);
    }
  }

  /** The old value of {a: {x: 1}} stays when "a." is set to {y: 2}. */
  lemma TrailingSeparatorKeepsOld(x: Tree, y: Tree)
    ensures var t, v := Map(map["a" := Map(map["x" := x])]), Map(map["y" := y]);
      Replaced(t, ["a", ""], v) == Some(Ok(Map(map["a" := Map(map["x" := x, "y" := y])])))
  {
    var t, v := Map(map["a" := Map(map["x" := x])]), Map(map["y" := y]);
    var inner := Map(map["x" := x]);
    assert Lookup(t, ["a"]) == Ok(inner) by { assert ["a"][1..] == []; }
    TrailingSeparatorBlends(t, ["a"], v);
    assert ["a"] + [""] == ["a", ""] && inner.kids - {""} == inner.kids;
    var merged := Merged(inner, v, Merge);
    assert merged.kids == map["x" := x, "y" := y];
    PlantedOk(t, ["a"], inner);
    assert Planted(t, ["a"], merged) == Ok(Map(map["a" := merged])) by {
      assert ["a"][1..] == [] && t.kids["a" := merged] == map["a" := merged];
    }
  }

  /** Setting "a.b" ends the program if "a" is a scalar. */
  lemma ScalarParentEnds(s: Scalar)
    ensures Removed(Map(map["a" := Leaf(s)]), ["a", "b"]) == None
  {
    assert ["a", "b"][..1] == ["a"] && ["a"][1..] == [];
    assert Lookup(Map(map["a" := Leaf(s)]), ["a"]) == Ok(Leaf(s));
  }
}
