/** Loading of configuration files that include each other. */
module IncludeLoader {
  import opened Wrappers
  import opened ConfigTrees
  import opened ConfigLookup
  import opened ConfigMerge
  import opened ConfigEdit

  /** An include; without a file it only sets how the including file is merged. */
  datatype Include = Include(file: string, merge: ArrayMerge, extend: bool)

  datatype Placed = Placed(path: seq<string>, what: Include)

  /** A file as parsed: its tree without the include tags, the includes of the top level, and the nested ones in the
      order of their paths. */
  datatype File = File(tree: Tree, tops: seq<Include>, nested: seq<Placed>)

  /** The files by resolved name; None stands for one that cannot be parsed. */
  type Files = map<string, Option<File>>

  datatype LoadError = NotFound(file: string) | Cycle(file: string) | Unreadable(file: string) | Unmerged(fault: Fault)

  /** The state while top includes are processed. */
  datatype Tops = Tops(merged: Tree, current: Tree, mode: ArrayMerge)

  function Elements(chain: seq<string>): set<string> {
    set f | f in chain
  }

  function Room(files: Files, chain: seq<string>): nat {
    |files.Keys - Elements(chain)|
  }

  lemma RoomShrinks(files: Files, chain: seq<string>, file: string)
    requires file in files && file !in chain
    ensures Room(files, chain + [file]) < Room(files, chain)
  {
    assert files.Keys - Elements(chain + [file]) == files.Keys - Elements(chain) - {file};
  }

  function Load(files: Files, file: string, chain: seq<string>): Result<Tree, LoadError>
    decreases Room(files, chain), 0, 0
  {
    if file !in files then Err(NotFound(file))
    else if file in chain then Err(Cycle(file))
    else if files[file].None? then Err(Unreadable(file))
    else
      RoomShrinks(files, chain, file);
      var f := files[file].value;
      match LoadTops(files, chain + [file], f.tops, Tops(Unset, f.tree, Merge))
      case Err(e) => Err(e)
      case Ok(s) => LoadNested(files, chain + [file], f.nested, Merged(s.merged, s.current, s.mode))
  }

  function LoadTops(files: Files, chain: seq<string>, tops: seq<Include>, s: Tops): Result<Tops, LoadError>
    decreases Room(files, chain), 1, |tops|
  {
    if tops == [] then Ok(s)
    else if tops[0].file == "" then LoadTops(files, chain, tops[1..], s.(mode := tops[0].merge))
    else
      match Load(files, tops[0].file, chain)
      case Err(e) => Err(e)
      case Ok(next) => LoadTops(files, chain, tops[1..], AddTop(s, tops[0], next))
  }

  function AddTop(s: Tops, it: Include, next: Tree): Tops {
    if it.extend then s.(current := Merged(s.current, next, it.merge))
    else s.(merged := Merged(s.merged, next, it.merge))
  }

  function LoadNested(files: Files, chain: seq<string>, nested: seq<Placed>, t: Tree): Result<Tree, LoadError>
    decreases Room(files, chain), 1, |nested|
  {
    if nested == [] then Ok(t)
    else
      match Load(files, nested[0].what.file, chain)
      case Err(e) => Err(e)
      case Ok(next) =>
        match MergedAt(t, next, nested[0].path, nested[0].what.merge)
        case Err(e) => Err(Unmerged(e))
        case Ok(r) => LoadNested(files, chain, nested[1..], r)
  }

  /** Loads a file and what it includes; the chain holds the files being loaded. */
  method LoadNext(files: Files, file: string, chain: seq<string>) returns (r: Result<Tree, LoadError>)
    ensures r == Load(files, file, chain)
    decreases Room(files, chain), 0
  {
    if file !in files { return Err(NotFound(file)); }
    if file in chain { return Err(Cycle(file)); }
    if files[file].None? { return Err(Unreadable(file)); }
    RoomShrinks(files, chain, file);
    var f := files[file].value;
    var tops := IncludeTops(files, f, chain + [file]);
    if tops.Err? { return Err(tops.error); }
    var current := tops.value.current;
    if tops.value.merged != Unset {
      current := Merged(tops.value.merged, current, tops.value.mode);
    }
    r := IncludeNested(files, f.nested, chain + [file], current);
  }

  /** The includes at the top of a file: plain ones are merged in order, others extend the tree of the file. */
  method IncludeTops(files: Files, f: File, inner: seq<string>) returns (r: Result<Tops, LoadError>)
    ensures r == LoadTops(files, inner, f.tops, Tops(Unset, f.tree, Merge))
    decreases Room(files, inner), 1
  {
    var current, merged, mode := f.tree, Unset, Merge;
    var i := 0;
    while i < |f.tops|
      invariant i <= |f.tops|
      invariant LoadTops(files, inner, f.tops, Tops(Unset, f.tree, Merge))
             == LoadTops(files, inner, f.tops[i..], Tops(merged, current, mode))
    {
      var it := f.tops[i];
      assert f.tops[i..][1..] == f.tops[i + 1..];
      if it.file != "" {
        var next := LoadNext(files, it.file, inner);
        if next.Err? { return Err(next.error); }
        if !it.extend {
          merged := Merged(merged, next.value, it.merge);
        } else {
          current := Merged(current, next.value, it.merge);
        }
      } else {
        mode := it.merge;
      }
      i := i + 1;
    }
    return Ok(Tops(merged, current, mode));
  }

  /** The includes inside a file, each merged at its path. */
  method IncludeNested(files: Files, nested: seq<Placed>, inner: seq<string>, t: Tree)
    returns (r: Result<Tree, LoadError>)
    ensures r == LoadNested(files, inner, nested, t)
    decreases Room(files, inner), 1
  {
    var current := t;
    var k := 0;
    while k < |nested|
      invariant k <= |nested|
      invariant LoadNested(files, inner, nested, t) == LoadNested(files, inner, nested[k..], current)
    {
      var it := nested[k];
      assert nested[k..][1..] == nested[k + 1..];
      var next := LoadNext(files, it.what.file, inner);
      if next.Err? { return next; }
      var placed := MergedAt(current, next.value, it.path, it.what.merge);
      if placed.Err? { return Err(Unmerged(placed.error)); }
      current := placed.value;
      k := k + 1;
    }
    return Ok(current);
  }

  // ---------- what loading says about the include graph ----------

  ghost predicate Includes(files: Files, a: string, b: string) {
    && a in files && files[a].Some?
    && ((exists it :: it in files[a].value.tops && it.file == b && b != "")
        || (exists it :: it in files[a].value.nested && it.what.file == b))
  }

  /** A walk along includes. */
  ghost predicate Leads(files: Files, p: seq<string>) {
    p != [] && (|p| == 1 || (Includes(files, p[0], p[1]) && Leads(files, p[1..])))
  }

  ghost predicate NoRepeat(p: seq<string>) {
    p == [] || (p[0] !in p[1..] && NoRepeat(p[1..]))
  }

  lemma {:induction false} TopsLoaded(files: Files, chain: seq<string>, tops: seq<Include>, s: Tops, it: Include)
    requires LoadTops(files, chain, tops, s).Ok? && it in tops && it.file != ""
    ensures Load(files, it.file, chain).Ok?
    decreases |tops|
  {
    if it != tops[0] {
      var next := if tops[0].file == "" then s.(mode := tops[0].merge)
                  else AddTop(s, tops[0], Load(files, tops[0].file, chain).value);
      TopsLoaded(files, chain, tops[1..], next, it);
    }
  }

  lemma {:induction false} NestedLoaded(files: Files, chain: seq<string>, nested: seq<Placed>, t: Tree, it: Placed)
    requires LoadNested(files, chain, nested, t).Ok? && it in nested
    ensures Load(files, it.what.file, chain).Ok?
    decreases |nested|
  {
    if it != nested[0] {
      var next := Load(files, nested[0].what.file, chain).value;
      NestedLoaded(files, chain, nested[1..], MergedAt(t, next, nested[0].path, nested[0].what.merge).value, it);
    }
  }

  /** Some nested include is loaded and cannot be merged at its path. */
  ghost predicate NestedRefuses(files: Files, chain: seq<string>, nested: seq<Placed>, t: Tree)
    decreases |nested|
  {
    nested != [] && Load(files, nested[0].what.file, chain).Ok? &&
    match MergedAt(t, Load(files, nested[0].what.file, chain).value, nested[0].path, nested[0].what.merge)
    case Err(_) => true
    case Ok(r) => NestedRefuses(files, chain, nested[1..], r)
  }

  /** A file that is loaded behind a chain fails by itself, at the merge of one of its nested includes. */
  ghost predicate OwnRefusal(files: Files, file: string, chain: seq<string>) {
    && file in files && file !in chain && files[file].Some?
    && var f, inner := files[file].value, chain + [file];
       var tops := LoadTops(files, inner, f.tops, Tops(Unset, f.tree, Merge));
       tops.Ok? && NestedRefuses(files, inner, f.nested, Merged(tops.value.merged, tops.value.current, tops.value.mode))
  }

  lemma {:induction false} LoadedNotRefused(files: Files, chain: seq<string>, nested: seq<Placed>, t: Tree)
    requires LoadNested(files, chain, nested, t).Ok?
    ensures !NestedRefuses(files, chain, nested, t)
    decreases |nested|
  {
    if nested != [] {
      var next := Load(files, nested[0].what.file, chain).value;
      LoadedNotRefused(files, chain, nested[1..], MergedAt(t, next, nested[0].path, nested[0].what.merge).value);
    }
  }

  /** When loading succeeds, no walk from the file meets a file twice, a missing file, or one that cannot be
      parsed or fails by itself. */
  lemma {:induction false} LoadedWalks(files: Files, file: string, chain: seq<string>, p: seq<string>)
    requires Load(files, file, chain).Ok? && Leads(files, p) && p[0] == file
    ensures NoRepeat(p) && forall f :: f in p ==> f !in chain && f in files && files[f].Some?
    ensures !OwnRefusal(files, p[|p| - 1], chain + p[..|p| - 1])
    decreases |p|
  {
    var f := files[file].value;
    var inner := chain + [file];
    var s := LoadTops(files, inner, f.tops, Tops(Unset, f.tree, Merge)).value;
    LoadedNotRefused(files, inner, f.nested, Merged(s.merged, s.current, s.mode));
    if |p| == 1 {
      assert chain + p[..0] == chain;
    } else {
      if it :| it in f.tops && it.file == p[1] && p[1] != "" {
        TopsLoaded(files, inner, f.tops, Tops(Unset, f.tree, Merge), it);
      } else {
        var it :| it in f.nested && it.what.file == p[1];
        NestedLoaded(files, inner, f.nested, Merged(s.merged, s.current, s.mode), it);
      }
      LoadedWalks(files, p[1], inner, p[1..]);
      assert inner + p[1..][..|p| - 2] == chain + p[..|p| - 1];
      assert file in inner && forall x :: x in p ==> x == p[0] || x in p[1..];
      assert forall x :: x in chain ==> x in inner;
    }
  }

  ghost predicate Explains(files: Files, chain: seq<string>, p: seq<string>, e: LoadError)
    requires p != []
  {
    var last := p[|p| - 1];
    match e
    case NotFound(f) => f == last && f !in files
    case Unreadable(f) => f == last && f in files && files[f].None?
    case Cycle(f) => f == last && f in chain + p[..|p| - 1]
    case Unmerged(_) => OwnRefusal(files, last, chain + p[..|p| - 1])
  }

  lemma {:induction false} TopsFault(files: Files, chain: seq<string>, tops: seq<Include>, s: Tops)
    returns (it: Include)
    requires LoadTops(files, chain, tops, s).Err?
    ensures it in tops && it.file != ""
    ensures Load(files, it.file, chain) == Err(LoadTops(files, chain, tops, s).error)
    decreases |tops|
  {
    it := tops[0];
    if it.file == "" {
      it := TopsFault(files, chain, tops[1..], s.(mode := it.merge));
    } else if Load(files, it.file, chain).Ok? {
      it := TopsFault(files, chain, tops[1..], AddTop(s, it, Load(files, it.file, chain).value));
    }
  }

  lemma {:induction false} NestedFault(files: Files, chain: seq<string>, nested: seq<Placed>, t: Tree)
    returns (it: Option<Placed>)
    requires LoadNested(files, chain, nested, t).Err?
    ensures it.None? ==> LoadNested(files, chain, nested, t).error.Unmerged? && NestedRefuses(files, chain, nested, t)
    ensures it.Some? ==> it.value in nested
    ensures it.Some? ==> Load(files, it.value.what.file, chain) == Err(LoadNested(files, chain, nested, t).error)
    decreases |nested|
  {
    var next := Load(files, nested[0].what.file, chain);
    if next.Err? { return Some(nested[0]); }
    var placed := MergedAt(t, next.value, nested[0].path, nested[0].what.merge);
    if placed.Err? { return None; }
    it := NestedFault(files, chain, nested[1..], placed.value);
  }

  /** An error is explained by a walk from the file: a cycle is reported only for a file met again along its own chain
      of includes, so that including a file along two different chains is no cycle. */
  lemma {:induction false} ErrorWalk(files: Files, file: string, chain: seq<string>) returns (p: seq<string>)
    requires Load(files, file, chain).Err?
    ensures Leads(files, p) && p[0] == file
    ensures Explains(files, chain, p, Load(files, file, chain).error)
    decreases Room(files, chain)
  {
    p := [file];
    assert chain + p[..0] == chain;
    if file in files && file !in chain && files[file].Some? {
      RoomShrinks(files, chain, file);
      var f := files[file].value;
      var inner := chain + [file];
      var tops := LoadTops(files, inner, f.tops, Tops(Unset, f.tree, Merge));
      var b: Option<string> := None;
      if tops.Err? {
        var it := TopsFault(files, inner, f.tops, Tops(Unset, f.tree, Merge));
        b := Some(it.file);
      } else {
        var it := NestedFault(files, inner, f.nested, Merged(tops.value.merged, tops.value.current, tops.value.mode));
        if it.Some? { b := Some(it.value.what.file); }
      }
      if b.Some? {
        var q := ErrorWalk(files, b.value, inner);
        p := [file] + q;
        assert p[1..] == q && p[|p| - 1] == q[|q| - 1];
        assert inner + q[..|q| - 1] == chain + p[..|p| - 1];
      }
    }
  }

  /** A walk that meets a file twice, or ends at one that is missing or cannot be parsed. */
  ghost predicate Faulty(files: Files, p: seq<string>)
    requires p != []
  {
    !NoRepeat(p) || p[|p| - 1] !in files || files[p[|p| - 1]].None?
  }

  lemma {:induction false} RepeatAtEnd(p: seq<string>)
    requires p != [] && p[|p| - 1] in p[..|p| - 1]
    ensures !NoRepeat(p)
  {
    if |p| > 1 && p[0] != p[|p| - 1] {
      assert p[1..][..|p| - 2] == p[1..|p| - 1];
      assert p[..|p| - 1] == [p[0]] + p[1..|p| - 1];
      RepeatAtEnd(p[1..]);
    }
  }

  /** The include graph decides: loading succeeds exactly when no walk from the file is faulty and no file on one fails
      by itself; and it reports a cycle, a missing or an unparsable file only for a faulty walk. */
  lemma GraphDecides(files: Files, file: string)
    ensures var r := Load(files, file, []);
      && (r.Ok? <==> forall p :: Leads(files, p) && p[0] == file ==>
            !Faulty(files, p) && !OwnRefusal(files, p[|p| - 1], p[..|p| - 1]))
      && (r.Err? && !r.error.Unmerged? ==> exists p :: Leads(files, p) && p[0] == file && Faulty(files, p))
  {
    var r := Load(files, file, []);
    if r.Err? {
      var p := ErrorWalk(files, file, []);
      assert [] + p[..|p| - 1] == p[..|p| - 1];
      if r.error.Cycle? { RepeatAtEnd(p); }
      assert Faulty(files, p) || OwnRefusal(files, p[|p| - 1], p[..|p| - 1]);
    } else {
      forall p | Leads(files, p) && p[0] == file
        ensures !Faulty(files, p) && !OwnRefusal(files, p[|p| - 1], p[..|p| - 1])
      {
        LoadedWalks(files, file, [], p);
        assert [] + p[..|p| - 1] == p[..|p| - 1];
      }
    }
  }

  // ---------- which files a value is made of ----------

  /** Nothing but maps, as far as it goes, leads to the path, and there is no map there. */
  ghost predicate ValuePath(t: Tree, q: seq<string>)
    decreases q
  {
    if q == [] then !t.Map?
    else if q[0] == "" then ValuePath(t, q[1..])
    else t == Unset || (t.Map? && ValuePath(Under(t, q[0]), q[1..]))
  }

  lemma {:induction false} UnsetValue(q: seq<string>)
    ensures ValuePath(Unset, q)
  {
    if q != [] && q[0] == "" { UnsetValue(q[1..]); }
  }

  lemma {:induction false} ValueMerged(a: Tree, b: Tree, q: seq<string>, mode: ArrayMerge)
    requires ValuePath(a, q) && ValuePath(b, q)
    ensures ValuePath(Merged(a, b, mode), q)
    ensures Find(Merged(a, b, mode), q) == Merged(Find(a, q), Find(b, q), mode)
    decreases q
  {
    FindUnset(q);
    if q != [] {
      if q[0] == "" {
        ValueMerged(a, b, q[1..], mode);
      } else if a != Unset && b != Unset {
        FindUnder(a, q);
        FindUnder(b, q);
        FindUnder(Merged(a, b, mode), q);
        UnderMerged(a, b, q[0], mode);
        ValueMerged(Under(a, q[0]), Under(b, q[0]), q[1..], mode);
      }
    }
  }

  /** A tree that holds only another one, at a path. */
  function Nest(path: seq<string>, n: Tree): Tree {
    Planted(Unset, path, n).value
  }

  lemma ValueApart(t: Tree, n: Tree, r: seq<string>, q: seq<string>, mode: ArrayMerge)
    requires r != [] && r[0] != "" && q != [] && q[0] != "" && r[0] != q[0]
    requires ValuePath(t, q) && ValuePath(Nest(r, n), q) && MergedAt(t, n, r, mode).Ok?
    ensures var m := MergedAt(t, n, r, mode).value;
      ValuePath(m, q) && Find(m, q) == Merged(Find(t, q), Find(Nest(r, n), q), mode)
  {
    var m := MergedAt(t, n, r, mode).value;
    FindUnder(t, q);
    FindUnder(m, q);
    FindUnder(Nest(r, n), q);
    FindUnset(q[1..]);
    assert Under(m, q[0]) == Under(t, q[0]);
  }

  lemma ValueInside(t: Tree, n: Tree, r: seq<string>, q: seq<string>, mode: ArrayMerge)
    requires r != [] && q != [] && r[0] == q[0] != ""
    requires ValuePath(t, q) && ValuePath(Nest(r, n), q) && MergedAt(t, n, r, mode).Ok?
    requires var u := MergedAt(Under(t, q[0]), n, r[1..], mode);
      && u.Ok? && ValuePath(u.value, q[1..])
      && Find(u.value, q[1..]) == Merged(Find(Under(t, q[0]), q[1..]), Find(Nest(r[1..], n), q[1..]), mode)
    ensures var m := MergedAt(t, n, r, mode).value;
      ValuePath(m, q) && Find(m, q) == Merged(Find(t, q), Find(Nest(r, n), q), mode)
  {
    FindUnder(t, r);
    FindUnder(t, q);
    FindUnder(MergedAt(t, n, r, mode).value, q);
    FindUnder(Nest(r, n), q);
  }

  /** Merging at a path is, for such a value, merging a tree that is nested there. */
  lemma {:induction false} ValuePlaced(t: Tree, n: Tree, r: seq<string>, q: seq<string>, mode: ArrayMerge)
    requires ValuePath(t, q) && ValuePath(Nest(r, n), q) && MergedAt(t, n, r, mode).Ok?
    ensures var m := MergedAt(t, n, r, mode).value;
      ValuePath(m, q) && Find(m, q) == Merged(Find(t, q), Find(Nest(r, n), q), mode)
    decreases |r| + |q|
  {
    var m := MergedAt(t, n, r, mode).value;
    if r == [] {
      ValueMerged(t, n, q, mode);
    } else if r[0] == "" {
      ValuePlaced(t, n, r[1..], q, mode);
    } else if q != [] && q[0] == "" {
      ValuePlaced(t, n, r, q[1..], mode);
    } else if q != [] {
      if r[0] == q[0] {
        FindUnder(t, r);
        UnsetValue(q[1..]);
        ValuePlaced(Under(t, q[0]), n, r[1..], q[1..], mode);
        ValueInside(t, n, r, q, mode);
      } else {
        ValueApart(t, n, r, q, mode);
      }
    }
  }

  /** What a file contributes, with the array mode it is merged with. */
  datatype Part = Part(tree: Tree, mode: ArrayMerge)

  ghost function LoadedTops(files: Files, chain: seq<string>, tops: seq<Include>, extend: bool): seq<Part> {
    if tops == [] then []
    else
      var rest := LoadedTops(files, chain, tops[1..], extend);
      if tops[0].file == "" || tops[0].extend != extend then rest
      else
        match Load(files, tops[0].file, chain)
        case Ok(next) => [Part(next, tops[0].merge)] + rest
        case Err(_) => rest
  }

  ghost function LoadedNested(files: Files, chain: seq<string>, nested: seq<Placed>): seq<Part> {
    if nested == [] then []
    else
      var rest := LoadedNested(files, chain, nested[1..]);
      match Load(files, nested[0].what.file, chain)
      case Ok(next) => [Part(Nest(nested[0].path, next), nested[0].what.merge)] + rest
      case Err(_) => rest
  }

  ghost predicate AllValues(parts: seq<Part>, q: seq<string>) {
    forall p :: p in parts ==> ValuePath(p.tree, q)
  }

  /** The values at a path merged in a row, each with its own mode. */
  ghost function Folded(x: Tree, parts: seq<Part>, q: seq<string>): Tree
    decreases parts
  {
    if parts == [] then x else Folded(Merged(x, Find(parts[0].tree, q), parts[0].mode), parts[1..], q)
  }

  /** The mode of the last include without a file, or `Merge` if there is none. */
  ghost function OwnMode(tops: seq<Include>): ArrayMerge {
    if tops == [] then Merge
    else if tops[|tops| - 1].file == "" then tops[|tops| - 1].merge
    else OwnMode(tops[..|tops| - 1])
  }

  lemma {:induction false} TopsMode(files: Files, chain: seq<string>, tops: seq<Include>, s: Tops)
    requires LoadTops(files, chain, tops, s).Ok?
    ensures LoadTops(files, chain, tops, s).value.mode
         == if exists it :: it in tops && it.file == "" then OwnMode(tops) else s.mode
    decreases |tops|
  {
    if tops != [] {
      var it := tops[0];
      var next := if it.file == "" then s.(mode := it.merge) else AddTop(s, it, Load(files, it.file, chain).value);
      TopsMode(files, chain, tops[1..], next);
      OwnModeBehind(tops);
      assert forall x :: x in tops <==> x == it || x in tops[1..];
    }
  }

  lemma {:induction false} OwnModeBehind(tops: seq<Include>)
    requires tops != []
    ensures (exists it :: it in tops[1..] && it.file == "") ==> OwnMode(tops) == OwnMode(tops[1..])
    ensures !(exists it :: it in tops[1..] && it.file == "") ==>
      OwnMode(tops) == if tops[0].file == "" then tops[0].merge else Merge
  {
    var last := tops[|tops| - 1];
    if |tops| > 1 {
      assert last in tops[1..] && last == tops[1..][|tops| - 2];
      if last.file != "" {
        var front := tops[..|tops| - 1];
        OwnModeBehind(front);
        assert front[1..] == tops[1..][..|tops| - 2];
        assert tops[1..] == front[1..] + [last];
      }
    }
  }

  lemma {:induction false} TopsFolded(files: Files, chain: seq<string>, tops: seq<Include>, s: Tops, q: seq<string>)
    requires LoadTops(files, chain, tops, s).Ok? && ValuePath(s.merged, q) && ValuePath(s.current, q)
    requires AllValues(LoadedTops(files, chain, tops, false), q) && AllValues(LoadedTops(files, chain, tops, true), q)
    ensures var r := LoadTops(files, chain, tops, s).value;
      && ValuePath(r.merged, q) && ValuePath(r.current, q)
      && Find(r.merged, q) == Folded(Find(s.merged, q), LoadedTops(files, chain, tops, false), q)
      && Find(r.current, q) == Folded(Find(s.current, q), LoadedTops(files, chain, tops, true), q)
    decreases |tops|
  {
    if tops != [] {
      var it := tops[0];
      if it.file == "" {
        TopsFolded(files, chain, tops[1..], s.(mode := it.merge), q);
      } else {
        var next := Load(files, it.file, chain).value;
        var parts := LoadedTops(files, chain, tops, it.extend);
        assert parts[0] == Part(next, it.merge) && parts[1..] == LoadedTops(files, chain, tops[1..], it.extend);
        if it.extend {
          ValueMerged(s.current, next, q, it.merge);
        } else {
          ValueMerged(s.merged, next, q, it.merge);
        }
        TopsFolded(files, chain, tops[1..], AddTop(s, it, next), q);
      }
    }
  }

  lemma {:induction false} NestedFolded(files: Files, chain: seq<string>, nested: seq<Placed>, t: Tree,
                                        q: seq<string>)
    requires LoadNested(files, chain, nested, t).Ok? && ValuePath(t, q)
    requires AllValues(LoadedNested(files, chain, nested), q)
    ensures var r := LoadNested(files, chain, nested, t).value;
      Find(r, q) == Folded(Find(t, q), LoadedNested(files, chain, nested), q)
    decreases |nested|
  {
    if nested != [] {
      var it := nested[0];
      var next := Load(files, it.what.file, chain).value;
      var parts := LoadedNested(files, chain, nested);
      assert parts[0] == Part(Nest(it.path, next), it.what.merge);
      assert parts[1..] == LoadedNested(files, chain, nested[1..]);
      ValuePlaced(t, next, it.path, q, it.what.merge);
      NestedFolded(files, chain, nested[1..], MergedAt(t, next, it.path, it.what.merge).value, q);
    }
  }

  /** The parts a loaded file is made of, weakest first: the plain top includes in order, the file itself, the top
      includes that extend it, and the nested includes, each at its path. */
  ghost function Contributions(files: Files, file: string, chain: seq<string>): seq<Part>
    requires file in files && files[file].Some?
  {
    var f, inner := files[file].value, chain + [file];
    LoadedTops(files, inner, f.tops, false) + [Part(f.tree, OwnMode(f.tops))]
      + LoadedTops(files, inner, f.tops, true) + LoadedNested(files, inner, f.nested)
  }

  /** A value of the loaded tree, arrays included: the plain includes are merged in order, each with its own mode; the
      file's value, into which the extending includes are merged with theirs, is merged into that with the mode that the
      last include without a file sets; and then the nested includes with theirs. */
  lemma Precedence(files: Files, file: string, chain: seq<string>, q: seq<string>)
    requires Load(files, file, chain).Ok? && AllValues(Contributions(files, file, chain), q)
    ensures var f, inner := files[file].value, chain + [file];
      var plain := Folded(Unset, LoadedTops(files, inner, f.tops, false), q);
      var own := Folded(Find(f.tree, q), LoadedTops(files, inner, f.tops, true), q);
      Find(Load(files, file, chain).value, q)
        == Folded(Merged(plain, own, OwnMode(f.tops)), LoadedNested(files, inner, f.nested), q)
  {
    var f, inner := files[file].value, chain + [file];
    var plain, extending := LoadedTops(files, inner, f.tops, false), LoadedTops(files, inner, f.tops, true);
    var nested := LoadedNested(files, inner, f.nested);
    var all := Contributions(files, file, chain);
    assert Part(f.tree, OwnMode(f.tops)) in all;
    assert forall p :: p in plain || p in extending || p in nested ==> p in all;
    FindUnset(q);
    UnsetValue(q);
    var start := Tops(Unset, f.tree, Merge);
    TopsFolded(files, inner, f.tops, start, q);
    TopsMode(files, inner, f.tops, start);
    NoOwnMode(f.tops);
    var s := LoadTops(files, inner, f.tops, start).value;
    ValueMerged(s.merged, s.current, q, s.mode);
    NestedFolded(files, inner, f.nested, Merged(s.merged, s.current, s.mode), q);
  }

  lemma {:induction false} NoOwnMode(tops: seq<Include>)
    ensures !(exists it :: it in tops && it.file == "") ==> OwnMode(tops) == Merge
  {
    if tops != [] {
      NoOwnMode(tops[..|tops| - 1]);
      assert tops[|tops| - 1] in tops;
    }
  }

  // ---------- which file a scalar comes from ----------

  function Later(a: Tree, b: Tree): Tree {
    if b == Unset then a else b
  }

  ghost predicate Scalary(t: Tree) {
    t == Unset || t.Leaf?
  }

  ghost predicate AllScalars(parts: seq<Part>, q: seq<string>) {
    forall p :: p in parts ==> Scalary(Find(p.tree, q))
  }

  /** The last value set at a path in a row of parts. */
  ghost function LastSet(parts: seq<Part>, q: seq<string>): Tree {
    if parts == [] then Unset else Later(Find(parts[0].tree, q), LastSet(parts[1..], q))
  }

  lemma {:induction false} LastSetAppend(a: seq<Part>, b: seq<Part>, q: seq<string>)
    ensures LastSet(a + b, q) == Later(LastSet(a, q), LastSet(b, q))
  {
    if a == [] {
      assert a + b == b;
    } else {
      assert (a + b)[1..] == a[1..] + b;
      LastSetAppend(a[1..], b, q);
    }
  }

  lemma {:induction false} FoldedScalars(x: Tree, parts: seq<Part>, q: seq<string>)
    requires Scalary(x) && AllScalars(parts, q)
    ensures Folded(x, parts, q) == Later(x, LastSet(parts, q)) && Scalary(Folded(x, parts, q))
    decreases parts
  {
    if parts != [] {
      var v := Find(parts[0].tree, q);
      assert parts[0] in parts && Merged(x, v, parts[0].mode) == Later(x, v);
      FoldedScalars(Later(x, v), parts[1..], q);
    }
  }

  /** A scalar of the loaded tree is the one its last contribution sets, whatever the modes. */
  lemma ScalarPrecedence(files: Files, file: string, chain: seq<string>, q: seq<string>)
    requires Load(files, file, chain).Ok?
    requires AllValues(Contributions(files, file, chain), q) && AllScalars(Contributions(files, file, chain), q)
    ensures Find(Load(files, file, chain).value, q) == LastSet(Contributions(files, file, chain), q)
  {
    var f, inner := files[file].value, chain + [file];
    var plain, extending := LoadedTops(files, inner, f.tops, false), LoadedTops(files, inner, f.tops, true);
    var nested, own := LoadedNested(files, inner, f.nested), [Part(f.tree, OwnMode(f.tops))];
    var all := Contributions(files, file, chain);
    assert own[0] in all && forall p :: p in plain || p in extending || p in nested ==> p in all;
    Precedence(files, file, chain, q);
    FoldedScalars(Unset, plain, q);
    FoldedScalars(Find(f.tree, q), extending, q);
    var a, b := Folded(Unset, plain, q), Folded(Find(f.tree, q), extending, q);
    assert Merged(a, b, OwnMode(f.tops)) == Later(a, b);
    FoldedScalars(Later(a, b), nested, q);
    LastSetAppend(plain, own, q);
    LastSetAppend(plain + own, extending, q);
    LastSetAppend(plain + own + extending, nested, q);
  }
}
