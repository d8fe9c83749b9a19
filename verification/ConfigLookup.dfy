/** Finding the node at a path. */
module ConfigLookup {
  import opened Wrappers
  import opened ConfigTrees
  import opened ConfigPaths

  datatype Fault = ValueNotSet | InvalidType | NotANumber | OutOfRange

  /** The node one section below. */
  function Child(t: Tree, section: string): (r: Result<Tree, Fault>)
    ensures r.Ok? ==> r.value < t
  {
    match t
    case Map(kids) => if section in kids then Ok(kids[section]) else Err(ValueNotSet)
    case Trees(nodes) =>
      (match NumberAt(section)
       case None => Err(NotANumber)
       case Some(pos) => if pos < |nodes| then Ok(nodes[pos]) else Err(OutOfRange))
    case Unset => Err(ValueNotSet)
    case _ => Err(InvalidType)
  }

  /** The node at a path; empty sections are passed over. */
  function Lookup(t: Tree, path: seq<string>): Result<Tree, Fault> {
    if path == [] then Ok(t)
    else if path[0] == "" then Lookup(t, path[1..])
    else
      match Child(t, path[0])
      case Ok(n) => Lookup(n, path[1..])
      case Err(e) => Err(e)
  }

  /** The node at a path, or an unset one. */
  function Find(t: Tree, path: seq<string>): Tree {
    match Lookup(t, path)
    case Ok(n) => n
    case Err(_) => Unset
  }

  /** A step down by kind of node: maps have keys and arrays of trees have indices; a map without the key and an unset
      node have no value set, a section that is no index and an index past the end are told apart, and every other node
      is of the wrong type. */
  lemma ChildMeans(t: Tree, section: string)
    ensures t.Map? ==> Child(t, section) == if section in t.kids then Ok(t.kids[section]) else Err(ValueNotSet)
    ensures t.Unset? ==> Child(t, section) == Err(ValueNotSet)
    ensures t.Trees? && NumberAt(section).None? ==> Child(t, section) == Err(NotANumber)
    ensures t.Trees? && NumberAt(section).Some? ==>
      Child(t, section) == if NumberAt(section).value < |t.nodes| then Ok(t.nodes[NumberAt(section).value])
                           else Err(OutOfRange)
    ensures t.Leaf? || t.Scalars? ==> Child(t, section) == Err(InvalidType)
  {
  }

  lemma {:induction false} LookupAppend(t: Tree, p: seq<string>, q: seq<string>)
    ensures Lookup(t, p + q) == if Lookup(t, p).Ok? then Lookup(Lookup(t, p).value, q) else Lookup(t, p)
    decreases p
  {
    if p == [] {
      assert p + q == q;
    } else {
      assert (p + q)[1..] == p[1..] + q;
      if p[0] == "" {
        LookupAppend(t, p[1..], q);
      } else if Child(t, p[0]).Ok? {
        LookupAppend(Child(t, p[0]).value, p[1..], q);
      }
    }
  }

  /** An empty section anywhere in a path makes no difference. */
  lemma EmptySkipped(t: Tree, p: seq<string>, q: seq<string>)
    ensures Lookup(t, p + [""] + q) == Lookup(t, p + q)
  {
    LookupAppend(t, p, q);
    LookupAppend(t, p, [""]);
    LookupAppend(t, p + [""], q);
  }

  /** Walks down from the root; stops at the first section that is not there. */
  method DoGet(t: Tree, path: seq<string>) returns (r: Result<Tree, Fault>, depth: nat, last: Tree)
    ensures r == Lookup(t, path)
    ensures depth <= |path| && Lookup(t, path[..depth]) == Ok(last)
    ensures r.Err? ==> depth < |path| && path[depth] != "" && Child(last, path[depth]) == Err(r.error)
    ensures r.Ok? ==> depth == |path| && last == r.value
    ensures r.Err? ==>
      && (r.error.ValueNotSet? <==> last.Map? || last.Unset?)
      && (r.error.InvalidType? <==> last.Leaf? || last.Scalars?)
      && (r.error.NotANumber? <==> last.Trees? && NumberAt(path[depth]).None?)
      && (r.error.OutOfRange? <==>
            last.Trees? && NumberAt(path[depth]).Some? && NumberAt(path[depth]).value >= |last.nodes|)
  {
    var i, current := 0, t;
    depth, last := 0, t;
    while i < |path|
      invariant i <= |path|
      invariant Lookup(t, path[..i]) == Ok(current)
      invariant Lookup(t, path) == Lookup(current, path[i..])
    {
      assert path[i..][1..] == path[i + 1..];
      assert path[..i + 1] == path[..i] + [path[i]];
      LookupAppend(t, path[..i], [path[i]]);
      if path[i] != "" {
        depth, last := i, current;
        var next := Child(current, path[i]);
        if next.Err? {
          return Err(next.error), depth, last;
        }
        current := next.value;
      }
      i := i + 1;
    }
    assert path[..i] == path;
    return Ok(current), i, current;
  }
}
