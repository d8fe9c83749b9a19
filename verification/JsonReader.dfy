/** The event handler that builds a configuration tree on an explicit stack of contexts. */
module JsonReader {
  import opened Wrappers
  import opened ConfigTrees
  import opened JsonEvents

  /** Where the tree of a context hangs: nowhere (the root), under a key of the map below, or at the end of the array
      below. */
  datatype Slot = Root | Member(key: string) | Element

  /** An open node. The handler's map pointer is set exactly while the tree is a map. */
  datatype Context = Context(tree: Tree, slot: Slot, inArray: bool)

  /** The contexts, innermost first. Closing the last one leaves the finished tree. */
  datatype Stack = Done(root: Tree) | Frame(top: Context, below: Stack) {

    function Depth(): nat {
      if Done? then 0 else 1 + below.Depth()
    }

    /** The stack with the tree of its innermost context replaced. */
    function With(t: Tree): Stack
      requires Frame?
    {
      Frame(top.(tree := t), below)
    }

    /** The stack without its innermost context; its tree is where its slot says. */
    function Pop(): (r: Stack)
      requires Frame?
      ensures r.Depth() == below.Depth()
    {
      match below
      case Done(_) => Done(top.tree)
      case Frame(c, rest) => Frame(c.(tree := Hang(c.tree, top.slot, top.tree)), rest)
    }
  }

  function Hang(parent: Tree, slot: Slot, t: Tree): Tree {
    if slot.Member? && parent.Map? then Map(parent.kids[slot.key := t])
    else if slot.Element? && parent.Trees? then Trees(parent.nodes + [t])
    else parent
  }

  /** A fresh parser: one context for an unset tree. */
  const START := Frame(Context(Unset, Root, false), Done(Unset))

  /** An array of trees gets one more element, which is opened. */
  function OpenElement(s: Stack, t: Tree, inArray: bool): Option<Stack>
    requires s.Frame?
  {
    if s.top.tree == Unset then Some(Frame(Context(t, Element, inArray), s.With(Trees([]))))
    else if s.top.tree.Trees? then Some(Frame(Context(t, Element, inArray), s))
    else None
  }

  /** One event; None is the handler's false. */
  function Step(s: Stack, e: Event): Option<Stack> {
    if s.Done? then None
    else
      var c := s.top;
      match e
      case NullEvent => Some(s.Pop())
      case ScalarEvent(v) =>
        if !c.inArray then Some(s.With(Leaf(v)).Pop())
        else if c.tree == Unset then Some(s.With(Scalars(TypeOf(v), [v])))
        else if c.tree.Scalars? && c.tree.elem == TypeOf(v) then Some(s.With(Scalars(c.tree.elem, c.tree.items + [v])))
        else None
      case StartObject =>
        if c.inArray then OpenElement(s, Map(map[]), false)
        else if c.tree.Map? then Some(s)
        else Some(s.With(Map(map[])))
      case KeyEvent(k) => if c.tree.Map? then Some(Frame(Context(Unset, Member(k), false), s)) else None
      case EndObject => Some(s.Pop())
      case StartArray =>
        if c.inArray then OpenElement(s, Unset, true)
        else if c.tree == Unset then Some(Frame(c.(inArray := true), s.below))
        else None
      case EndArray => if c.inArray then Some(s.Pop()) else None
  }

  function Run(s: Stack, events: seq<Event>): Option<Stack>
    decreases events
  {
    if events == [] then Some(s)
    else
      match Step(s, events[0])
      case None => None
      case Some(t) => Run(t, events[1..])
  }

  lemma {:induction false} RunOne(s: Stack, e: Event)
    ensures Run(s, [e]) == Step(s, e)
  {
    if Step(s, e).Some? {
      assert Run(Step(s, e).value, []) == Step(s, e);
    }
  }

  lemma {:induction false} RunAppend(s: Stack, a: seq<Event>, b: seq<Event>)
    ensures Run(s, a + b) == if Run(s, a).Some? then Run(Run(s, a).value, b) else None
    decreases a
  {
    if a == [] {
      assert a + b == b;
    } else {
      assert (a + b)[1..] == a[1..] + b;
      if Step(s, a[0]).Some? {
        RunAppend(Step(s, a[0]).value, a[1..], b);
      }
    }
  }

  // ---------- the events of a value never leave the stack deeper ----------

  /** How many contexts a complete value closes at the least. */
  function Closes(s: Stack): nat {
    if s.Frame? && !s.top.inArray then 1 else 0
  }

  lemma {:induction false} ValueShrinks(s: Stack, j: Json)
    requires Run(s, Events(j)).Some?
    ensures Run(s, Events(j)).value.Depth() <= s.Depth() - Closes(s)
    decreases j, 1
  {
    match j
    case Null => RunOne(s, NullEvent);
    case Value(v) => RunOne(s, ScalarEvent(v));
    case Object(fields) =>
      RunAppend(s, [StartObject] + FieldEvents(fields), [EndObject]);
      RunAppend(s, [StartObject], FieldEvents(fields));
      RunOne(s, StartObject);
      FieldsShrink(Step(s, StartObject).value, fields);
      RunOne(Run(Step(s, StartObject).value, FieldEvents(fields)).value, EndObject);
    case Array(items) =>
      RunAppend(s, [StartArray] + ItemEvents(items), [EndArray]);
      RunAppend(s, [StartArray], ItemEvents(items));
      RunOne(s, StartArray);
      ItemsShrink(Step(s, StartArray).value, items);
      RunOne(Run(Step(s, StartArray).value, ItemEvents(items)).value, EndArray);
  }

  lemma {:induction false} FieldsShrink(s: Stack, fields: seq<Field>)
    requires Run(s, FieldEvents(fields)).Some?
    ensures Run(s, FieldEvents(fields)).value.Depth() <= s.Depth()
    decreases fields, 0
  {
    if fields != [] {
      var key, value := [KeyEvent(fields[0].key)], Events(fields[0].value);
      RunAppend(s, key + value, FieldEvents(fields[1..]));
      RunAppend(s, key, value);
      RunOne(s, key[0]);
      ValueShrinks(Step(s, key[0]).value, fields[0].value);
      FieldsShrink(Run(Step(s, key[0]).value, value).value, fields[1..]);
    }
  }

  lemma {:induction false} ItemsShrink(s: Stack, items: seq<Json>)
    requires Run(s, ItemEvents(items)).Some?
    ensures Run(s, ItemEvents(items)).value.Depth() <= s.Depth()
    decreases items, 0
  {
    if items != [] {
      RunAppend(s, Events(items[0]), ItemEvents(items[1..]));
      ValueShrinks(s, items[0]);
      ItemsShrink(Run(s, Events(items[0])).value, items[1..]);
    }
  }

  // ---------- the handler follows the loader ----------

  /** A run ended as the loader says: with the loaded tree in place or, where the loader refuses, with a refusal or with
      too many contexts closed. */
  ghost predicate Follows(r: Option<Stack>, loaded: Option<Stack>, depth: int) {
    if loaded.Some? then r == loaded else r.Some? ==> r.value.Depth() < depth
  }

  ghost function Closed(s: Stack, t: Option<Tree>): Option<Stack>
    requires s.Frame?
  {
    if t.Some? then Some(s.With(t.value).Pop()) else None
  }

  ghost function Updated(s: Stack, t: Option<Tree>): Option<Stack>
    requires s.Frame?
  {
    if t.Some? then Some(s.With(t.value)) else None
  }

  ghost predicate ArrayOpen(s: Stack) {
    s.Frame? && s.top.inArray && (s.top.tree == Unset || s.top.tree.Scalars? || s.top.tree.Trees?)
  }

  /** A value read into a fresh context closes it with the loaded tree. */
  lemma {:induction false} ValueFollows(s: Stack, j: Json)
    requires s.Frame? && s.top.tree == Unset && !s.top.inArray && DistinctKeys(j)
    ensures Follows(Run(s, Events(j)), Closed(s, Load(j)), s.Depth() - 1)
    decreases j, 1
  {
    match j
    case Null => RunOne(s, NullEvent);
    case Value(v) => RunOne(s, ScalarEvent(v));
    case Object(fields) => ObjectFollows(s, fields);
    case Array(items) => ArrayFollows(s, items);
  }

  lemma {:induction false} ObjectFollows(s: Stack, fields: seq<Field>)
    requires s.Frame? && s.top.tree == Unset && !s.top.inArray && DistinctFields(fields)
    ensures Follows(Run(s, Events(Object(fields))), Closed(s, LoadFields(map[], fields)), s.Depth() - 1)
    decreases fields, 1
  {
    var open := s.With(Map(map[]));
    RunAppend(s, [StartObject] + FieldEvents(fields), [EndObject]);
    RunAppend(s, [StartObject], FieldEvents(fields));
    RunOne(s, StartObject);
    FieldsFollow(open, fields);
    if Run(open, FieldEvents(fields)).Some? {
      RunOne(Run(open, FieldEvents(fields)).value, EndObject);
    }
  }

  lemma {:induction false} ArrayFollows(s: Stack, items: seq<Json>)
    requires s.Frame? && s.top.tree == Unset && !s.top.inArray && DistinctItems(items)
    ensures Follows(Run(s, Events(Array(items))), Closed(s, LoadItems(Unset, items)), s.Depth() - 1)
    decreases items, 1
  {
    var open := Frame(s.top.(inArray := true), s.below);
    RunAppend(s, [StartArray] + ItemEvents(items), [EndArray]);
    RunAppend(s, [StartArray], ItemEvents(items));
    RunOne(s, StartArray);
    ItemsFollow(open, items);
    if Run(open, ItemEvents(items)).Some? {
      RunOne(Run(open, ItemEvents(items)).value, EndArray);
    }
  }

  lemma {:induction false} FieldsFollow(s: Stack, fields: seq<Field>)
    requires s.Frame? && s.top.tree.Map? && !s.top.inArray && DistinctFields(fields)
    ensures Follows(Run(s, FieldEvents(fields)), Updated(s, LoadFields(s.top.tree.kids, fields)), s.Depth())
    decreases fields, 0
  {
    if fields != [] {
      var k, j := fields[0].key, fields[0].value;
      var rest := FieldEvents(fields[1..]);
      var field := Frame(Context(Unset, Member(k), false), s);
      RunAppend(s, [KeyEvent(k)] + Events(j), rest);
      RunAppend(s, [KeyEvent(k)], Events(j));
      RunOne(s, KeyEvent(k));
      ValueFollows(field, j);
      if Load(j).Some? {
        FieldsFollow(s.With(Map(s.top.tree.kids[k := Load(j).value])), fields[1..]);
      } else if Run(field, Events(j)).Some? && Run(Run(field, Events(j)).value, rest).Some? {
        FieldsShrink(Run(field, Events(j)).value, fields[1..]);
      }
    }
  }

  lemma {:induction false} ItemsFollow(s: Stack, items: seq<Json>)
    requires ArrayOpen(s) && DistinctItems(items)
    ensures Follows(Run(s, ItemEvents(items)), Updated(s, LoadItems(s.top.tree, items)), s.Depth())
    decreases items, 0
  {
    if items != [] {
      var so, j := s.top.tree, items[0];
      var rest := ItemEvents(items[1..]);
      RunAppend(s, Events(j), rest);
      ItemFollows(s, j);
      if AddItem(so, j).Some? {
        ItemsFollow(s.With(AddItem(so, j).value), items[1..]);
      } else if Run(s, Events(j)).Some? && Run(Run(s, Events(j)).value, rest).Some? {
        ItemsShrink(Run(s, Events(j)).value, items[1..]);
      }
    }
  }

  /** A value read into an open array is added to it. */
  lemma {:induction false} ItemFollows(s: Stack, j: Json)
    requires ArrayOpen(s) && DistinctKeys(j)
    ensures Follows(Run(s, Events(j)), Updated(s, AddItem(s.top.tree, j)), s.Depth())
    decreases j, 2
  {
    var start := if j.Object? then StartObject else StartArray;
    match j
    case Null => RunOne(s, NullEvent);
    case Value(v) => RunOne(s, ScalarEvent(v));
    case _ =>
      // opening an element and reading a value into a fresh context differ in who takes the first event
      var tail := Events(j)[1..];
      assert Events(j) == [start] + tail;
      if s.top.tree == Unset || s.top.tree.Trees? {
        var parent := if s.top.tree == Unset then s.With(Trees([])) else s;
        var element := Frame(Context(Unset, Element, false), parent);
        assert Step(s, start) == Step(element, start);
        assert Run(s, Events(j)) == Run(element, Events(j));
        ValueFollows(element, j);
        assert element.Depth() == s.Depth() + 1;
        assert Closed(element, Load(j)) == Updated(s, AddItem(s.top.tree, j));
      } else {
        assert Step(s, start) == None;
      }
  }

  /** The handler accepts the events of a value exactly when its arrays are homogeneous and hold no null; it then ends
      with the stack empty and the loaded tree. */
  lemma {:induction false} Accepts(j: Json)
    requires DistinctKeys(j)
    ensures Run(START, Events(j)).Some? <==> Homogeneous(j)
    ensures Homogeneous(j) ==> Load(j).Some? && Run(START, Events(j)) == Some(Done(Load(j).value))
  {
    ValueFollows(START, j);
    LoadHomogeneous(j);
  }

  /** An empty array leaves the node unset. */
  lemma EmptyArray()
    ensures Run(START, Events(Array([]))) == Some(Done(Unset))
  {
    Accepts(Array([]));
  }
}
