/** The JSON processor of configuration trees: the event handler and the serializer, each against its specification. */
module JsonProcessor {
  import opened Wrappers
  import opened ConfigTrees
  import opened JsonEvents
  import opened JsonReader
  import opened JsonRoundTrip

  class ReaderHandler {
    var stack: Stack

    constructor ()
      ensures stack == START
    {
      stack := START;
    }

    /** The handler answered an event as the step function does. */
    ghost predicate Took(before: Stack, e: Event, ok: bool)
      reads this
    {
      ok == Step(before, e).Some? && (ok ==> Step(before, e) == Some(stack))
    }

    method PushElement(t: Tree, inArray: bool) returns (ok: bool)
      requires stack.Frame?
      modifies this
      ensures ok == OpenElement(old(stack), t, inArray).Some?
      ensures ok ==> OpenElement(old(stack), t, inArray) == Some(stack)
    {
      if stack.top.tree == Unset {
        stack := stack.With(Trees([]));
      }
      if !stack.top.tree.Trees? { return false; }
      stack := Frame(Context(t, Element, inArray), stack);
      return true;
    }

    method OnStartObject() returns (ok: bool)
      modifies this
      ensures Took(old(stack), StartObject, ok)
    {
      if stack.Done? { return false; }
      if !stack.top.inArray {
        if !stack.top.tree.Map? {
          stack := stack.With(Map(map[]));
        }
        return true;
      }
      ok := PushElement(Map(map[]), false);
    }

    method OnEndObject() returns (ok: bool)
      modifies this
      ensures Took(old(stack), EndObject, ok)
    {
      if stack.Done? { return false; }
      stack := stack.Pop();
      return true;
    }

    method OnKey(key: string) returns (ok: bool)
      modifies this
      ensures Took(old(stack), KeyEvent(key), ok)
    {
      if stack.Done? || !stack.top.tree.Map? { return false; }
      stack := Frame(Context(Unset, Member(key), false), stack);
      return true;
    }

    method OnNull() returns (ok: bool)
      modifies this
      ensures Took(old(stack), NullEvent, ok)
    {
      if stack.Done? { return false; }
      stack := stack.Pop();
      return true;
    }

    method SetValue(v: Scalar) returns (ok: bool)
      modifies this
      ensures Took(old(stack), ScalarEvent(v), ok)
    {
      if stack.Done? { return false; }
      if !stack.top.inArray {
        stack := stack.With(Leaf(v));
        stack := stack.Pop();
        return true;
      }
      if stack.top.tree == Unset {
        stack := stack.With(Scalars(TypeOf(v), []));
      }
      var so := stack.top.tree;
      if !so.Scalars? || so.elem != TypeOf(v) { return false; }
      stack := stack.With(Scalars(so.elem, so.items + [v]));
      assert [] + [v] == [v];
      return true;
    }

    method OnStartArray() returns (ok: bool)
      modifies this
      ensures Took(old(stack), StartArray, ok)
    {
      if stack.Done? { return false; }
      if !stack.top.inArray {
        if stack.top.tree != Unset { return false; }
        stack := Frame(stack.top.(inArray := true), stack.below);
        return true;
      }
      ok := PushElement(Unset, true);
    }

    method OnEndArray() returns (ok: bool)
      modifies this
      ensures Took(old(stack), EndArray, ok)
    {
      if stack.Done? || !stack.top.inArray { return false; }
      stack := stack.Pop();
      return true;
    }

    method Handle(e: Event) returns (ok: bool)
      modifies this
      ensures Took(old(stack), e, ok)
    {
      match e {
        case NullEvent => ok := OnNull();
        case ScalarEvent(v) => ok := SetValue(v);
        case StartObject => ok := OnStartObject();
        case EndObject => ok := OnEndObject();
        case KeyEvent(key) => ok := OnKey(key);
        case StartArray => ok := OnStartArray();
        case EndArray => ok := OnEndArray();
      }
    }
  }

  /** Reads the events of a value. The result is the loaded tree, and there is one exactly when all arrays of the value
      are homogeneous and hold no null. */
  method Parse(events: seq<Event>, ghost j: Json) returns (r: Option<Tree>)
    requires events == Events(j) && DistinctKeys(j)
    ensures r == Load(j)
    ensures r.Some? <==> Homogeneous(j)
  {
    Accepts(j);
    LoadHomogeneous(j);
    var handler := new ReaderHandler();
    var i := 0;
    while i < |events|
      invariant 0 <= i <= |events|
      invariant Run(START, events) == Run(handler.stack, events[i..])
    {
      var ok := handler.Handle(events[i]);
      assert events[i..][1..] == events[i + 1..];
      if !ok { return None; }
      i := i + 1;
    }
    return Some(handler.stack.root);
  }

  class Writer {
    var events: seq<Event>

    constructor ()
      ensures events == []
    {
      events := [];
    }

    method Put(e: Event)
      modifies this
      ensures events == old(events) + [e]
    {
      events := events + [e];
    }

    method WriteScalar(s: Scalar)
      modifies this
      ensures events == old(events) + Events(Written(s))
    {
      if s.String? {
        Put(ScalarEvent(String(CString(s.s))));
      } else {
        Put(ScalarEvent(s));
      }
    }

    /** Appends the events of the JSON value of a tree. */
    method WriteTree(t: Tree)
      modifies this
      ensures events == old(events) + Events(ToJson(t))
      decreases t
    {
      match t {
        case Unset =>
          Put(NullEvent);
        case Leaf(s) =>
          WriteScalar(s);
        case Map(kids) =>
          Put(StartObject);
          WriteKids(t);
          Put(EndObject);
        case Scalars(_, items) =>
          Put(StartArray);
          WriteScalars(items);
          Put(EndArray);
        case Trees(nodes) =>
          Put(StartArray);
          WriteNodes(nodes);
          Put(EndArray);
      }
    }

    method WriteScalars(items: seq<Scalar>)
      modifies this
      ensures events == old(events) + ItemEvents(ScalarsToJson(items))
    {
      ghost var all := events + ItemEvents(ScalarsToJson(items));
      var i := 0;
      while i < |items|
        invariant 0 <= i <= |items|
        invariant events + ItemEvents(ScalarsToJson(items[i..])) == all
      {
        ghost var left := [Written(items[i])] + ScalarsToJson(items[i + 1..]);
        assert items[i..][1..] == items[i + 1..];
        assert ScalarsToJson(items[i..]) == left && left[1..] == ScalarsToJson(items[i + 1..]);
        WriteScalar(items[i]);
        i := i + 1;
      }
      assert ItemEvents(ScalarsToJson(items[|items|..])) == [];
    }

    method WriteNodes(nodes: seq<Tree>)
      modifies this
      ensures events == old(events) + ItemEvents(NodesToJson(nodes))
      decreases nodes
    {
      ghost var all := events + ItemEvents(NodesToJson(nodes));
      var i := 0;
      while i < |nodes|
        invariant 0 <= i <= |nodes|
        invariant events + ItemEvents(NodesToJson(nodes[i..])) == all
      {
        ghost var left := [ToJson(nodes[i])] + NodesToJson(nodes[i + 1..]);
        assert nodes[i..][1..] == nodes[i + 1..];
        assert NodesToJson(nodes[i..]) == left && left[1..] == NodesToJson(nodes[i + 1..]);
        WriteTree(nodes[i]);
        i := i + 1;
      }
      assert ItemEvents(NodesToJson(nodes[|nodes|..])) == [];
    }

    method WriteKids(t: Tree)
      requires t.Map?
      modifies this
      ensures events == old(events) + FieldEvents(KidsToJson(t, t.kids.Keys))
      decreases t, 0
    {
      var keys := t.kids.Keys;
      ghost var all := events + FieldEvents(KidsToJson(t, keys));
      while keys != {}
        invariant keys <= t.kids.Keys
        invariant events + FieldEvents(KidsToJson(t, keys)) == all
        decreases keys
      {
        FirstExists(keys);
        var k :| IsFirst(k, keys);
        FirstUnique(keys, k, First(keys));
        KidNext(t, keys, k, events);
        Put(KeyEvent(CString(k)));
        WriteTree(t.kids[k]);
        keys := keys - {k};
      }
      assert FieldEvents(KidsToJson(t, {})) == [];
    }
  }

  lemma FieldNext(field: Field, rest: seq<Field>)
    ensures FieldEvents([field] + rest) == [KeyEvent(field.key)] + Events(field.value) + FieldEvents(rest)
  {
    assert ([field] + rest)[1..] == rest;
  }

  lemma KidNext(t: Tree, keys: set<string>, k: string, written: seq<Event>)
    requires t.Map? && {} < keys <= t.kids.Keys && k == First(keys)
    ensures written + FieldEvents(KidsToJson(t, keys))
         == written + [KeyEvent(CString(k))] + Events(ToJson(t.kids[k])) + FieldEvents(KidsToJson(t, keys - {k}))
  {
    hide FieldEvents, Events, ToJson, CString;
    FieldNext(Field(CString(k), ToJson(t.kids[k])), KidsToJson(t, keys - {k}));
  }

  /** Writes a tree and reads it back: the same tree for printable trees, and for no others. */
  method Rewrite(t: Tree) returns (r: Option<Tree>)
    requires DistinctKeys(ToJson(t))
    ensures r == Load(ToJson(t))
    ensures r == Some(t) <==> Printable(t)
  {
    var w := new Writer();
    w.WriteTree(t);
    ReloadsPrintable(t);
    assert w.events == Events(ToJson(t));
    r := Parse(w.events, ToJson(t));
  }
}
