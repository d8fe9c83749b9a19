/** The subscription nodes of the event dispatcher as linked objects that are updated in place, and the dispatcher. */
module EventDispatching {
  import opened SubscriptionTrie

  /** What subscriptions and events are matched by; an empty field of a subscription means any value. */
  datatype EventKey = EventKey(
    category: string, event: string, envId: string, topic: string, oid: string, subject: string)
  {
    function Selectors(): (r: seq<string>)
      ensures |r| == 6
    {
      [category, event, envId, topic, oid, subject]
    }
  }

  class EventSubscriptions<H> {
    var handlers: map<nat, H>
    var keyHandlers: map<string, EventSubscriptions<H>>
    ghost var Repr: set<object>
    ghost var model: Trie<H>

    ghost predicate Valid()
      reads this, Repr
      ensures Valid() ==> this in Repr
      decreases Repr, 1
    {
      && Linked()
      && forall s :: s in keyHandlers ==> keyHandlers[s].model == model.kids[s]
    }

    /** Valid, except that `model` may not have caught up with the nodes below. */
    ghost predicate Linked()
      reads this, Repr
      ensures Linked() ==> this in Repr
      decreases Repr, 0
    {
      && this in Repr
      && model.handlers == handlers && model.kids.Keys == keyHandlers.Keys
      && (forall s :: s in keyHandlers ==>
            keyHandlers[s] in Repr && keyHandlers[s].Repr <= Repr - {this} && keyHandlers[s].Valid())
      && (forall s, r :: s in keyHandlers && r in keyHandlers && s != r ==>
            keyHandlers[s].Repr !! keyHandlers[r].Repr)
    }

    ghost method AdoptKid(s: string)
      requires Linked() && s in keyHandlers
      requires forall r :: r in keyHandlers && r != s ==> keyHandlers[r].model == model.kids[r]
      modifies this`model
      ensures Valid() && model == old(model).(kids := old(model).kids[s := keyHandlers[s].model])
    {
      model := model.(kids := model.kids[s := keyHandlers[s].model]);
    }

    method EraseKid(s: string)
      requires Linked() && s in keyHandlers
      requires forall r :: r in keyHandlers && r != s ==> keyHandlers[r].model == model.kids[r]
      modifies this`model, this`keyHandlers
      ensures Valid() && model == old(model).(kids := old(model).kids - {s})
    {
      keyHandlers := keyHandlers - {s};
      model := model.(kids := model.kids - {s});
      assert forall r :: r in keyHandlers ==> keyHandlers[r].Valid();
      assert Linked();
    }

    /** Erases a node that has become empty. */
    method PruneKid(s: string)
      requires Linked() && s in keyHandlers
      requires forall r :: r in keyHandlers && r != s ==> keyHandlers[r].model == model.kids[r]
      modifies this`model, this`keyHandlers
      ensures Valid()
      ensures var kid := old(keyHandlers[s].model);
        model == old(model).(kids := if IsEmpty(kid) then old(model).kids - {s} else old(model).kids[s := kid])
    {
      var subs := keyHandlers[s];
      assert subs.Valid() && (subs.keyHandlers == map[] <==> subs.keyHandlers.Keys == {})
          && (subs.model.kids == map[] <==> subs.model.kids.Keys == {});
      if subs.handlers == map[] && subs.keyHandlers == map[] {
        EraseKid(s);
      } else {
        AdoptKid(s);
      }
    }

    constructor ()
      ensures Valid() && fresh(Repr) && model == Empty()
    {
      handlers, keyHandlers := map[], map[];
      Repr, model := {this}, Empty();
    }

    method AddKid(selector: string, subs: EventSubscriptions<H>)
      requires Valid() && selector !in keyHandlers && subs.Valid() && subs.Repr !! Repr
      modifies this
      ensures Valid() && Repr == old(Repr) + subs.Repr && keyHandlers == old(keyHandlers)[selector := subs]
      ensures model == old(model).(kids := old(model).kids[selector := subs.model])
    {
      keyHandlers, Repr := keyHandlers[selector := subs], Repr + subs.Repr;
      model := model.(kids := model.kids[selector := subs.model]);
      assert subs.Valid() && forall s :: s in keyHandlers && s != selector ==> keyHandlers[s].Valid();
      assert Linked();
    }

    /** The node below a selector, added if there is none. */
    method EnsureKid(selector: string) returns (subs: EventSubscriptions<H>)
      requires Valid()
      modifies this
      ensures Valid() && fresh(Repr - old(Repr))
      ensures selector in keyHandlers && keyHandlers[selector] == subs
      ensures model == old(model).(kids := old(model).kids[selector := Kid(old(model), selector)])
    {
      if selector in keyHandlers {
        subs := keyHandlers[selector];
        assert model.kids == model.kids[selector := model.kids[selector]];
      } else {
        subs := new EventSubscriptions();
        AddKid(selector, subs);
      }
    }

    method AddHandler(id: nat, handler: H)
      requires Valid()
      modifies this`handlers, this`model
      ensures Valid() && model == old(model).(handlers := old(model).handlers[id := handler])
    {
      handlers := handlers[id := handler];
      model := model.(handlers := handlers);
    }

    method DoInsert(key: seq<string>, handler: H, id: nat, selectorIndex: nat)
      requires Valid() && selectorIndex <= |key|
      modifies Repr
      ensures Valid() && fresh(Repr - old(Repr))
      ensures model == Insert(old(model), key[selectorIndex..], id, handler)
      decreases |key| - selectorIndex, 1
    {
      if selectorIndex == |key| || SubNull(key[selectorIndex..]) {
        AddHandler(id, handler);
        return;
      }
      var selector := key[selectorIndex];
      assert key[selectorIndex..][1..] == key[selectorIndex + 1..];
      var subs := EnsureKid(selector);
      InsertBelow(selector, key, handler, id, selectorIndex + 1);
    }

    method InsertBelow(s: string, key: seq<string>, handler: H, id: nat, selectorIndex: nat)
      requires Valid() && selectorIndex <= |key| && s in keyHandlers
      modifies Repr
      ensures Valid() && fresh(Repr - old(Repr))
      ensures var kids := old(model).kids;
        s in kids && model == old(model).(kids := kids[s := Insert(kids[s], key[selectorIndex..], id, handler)])
      decreases |key| - selectorIndex, 2
    {
      var subs := keyHandlers[s];
      subs.DoInsert(key, handler, id, selectorIndex);
      Repr := Repr + subs.Repr;
      AdoptKid(s);
    }

    /** Appends the handlers of this node, in the order of their numbers. */
    method PushHandlers(found: seq<Entry<H>>) returns (result: seq<Entry<H>>)
      ensures result == found + Listing(handlers)
    {
      result := found;
      var left := handlers;
      while left != map[]
        invariant result + Listing(left) == found + Listing(handlers)
        decreases |left|
      {
        var id := Least(left.Keys);
        assert (left - {id}).Keys == left.Keys - {id};
        assert Listing(left) == [Entry(id, left[id])] + Listing(left - {id});
        result := result + [Entry(id, left[id])];
        left := left - {id};
      }
    }

    /** Appends what is found to `found`. */
    method DoFind(event: seq<string>, found: seq<Entry<H>>, selectorIndex: nat) returns (result: seq<Entry<H>>)
      requires Valid() && selectorIndex <= |event|
      ensures result == found + Find(model, event[selectorIndex..])
      decreases |event| - selectorIndex
    {
      result := PushHandlers(found);
      if selectorIndex == |event| {
        return;
      }
      var selector := event[selectorIndex];
      assert event[selectorIndex..][1..] == event[selectorIndex + 1..];
      ghost var same, any := [], [];
      ghost var here := Listing(handlers);
      if selector in keyHandlers {
        result := keyHandlers[selector].DoFind(event, result, selectorIndex + 1);
        same := Find(model.kids[selector], event[selectorIndex + 1..]);
      }
      if "" in keyHandlers {
        result := keyHandlers[""].DoFind(event, result, selectorIndex + 1);
        any := Find(model.kids[""], event[selectorIndex + 1..]);
      }
      Reassociate(found, here, same, any);
    }

    /** Removes from the node below selector `s`, which may become empty. */
    method RemoveIn(s: string, id: nat) returns (removed: nat)
      requires Valid() && s in keyHandlers && s in model.kids && Once(model.kids[s], id)
      modifies Repr - {this}
      ensures Linked() && keyHandlers[s].model == Remove(model.kids[s], id)
      ensures forall r :: r in keyHandlers && r != s ==> keyHandlers[r].model == model.kids[r]
      ensures removed != 0 <==> Holds(model.kids[s], id)
      decreases Repr, 0
    {
      var subs := keyHandlers[s];
      removed := subs.DoRemove(id);
    }

    /** Looks for the handler below selector `s`. */
    method RemoveBelow(s: string, id: nat) returns (removed: nat)
      requires Valid() && Once(model, id) && id !in handlers && s in keyHandlers
      modifies Repr
      ensures Valid() && Repr == old(Repr)
      ensures removed != 0 <==> s in old(model).kids && Holds(old(model).kids[s], id)
      ensures if removed != 0 then model == Remove(old(model), id)
              else model == old(model) && handlers == old(handlers) && keyHandlers == old(keyHandlers)
      decreases Repr, 1
    {
      OnceKid(model, id, s);
      removed := RemoveIn(s, id);
      if removed != 0 {
        RemoveFromKid(model, id, s);
        PruneKid(s);
      } else {
        HoldsAt(model.kids[s], id);
        RemoveAbsent(model.kids[s], id);
      }
    }

    /** Removes the handler with the given number, if there is one, and drops nodes that become empty. */
    method DoRemove(id: nat) returns (removed: nat)
      requires Valid() && Once(model, id)
      modifies Repr
      ensures Valid() && Repr == old(Repr)
      ensures model == Remove(old(model), id) && (removed != 0 <==> Holds(old(model), id))
      decreases Repr
    {
      ghost var before := model;
      if id in handlers {
        handlers := handlers - {id};
        model := model.(handlers := handlers);
        return 1;
      }
      var todo := keyHandlers.Keys;
      while todo != {}
        invariant Valid() && Repr == old(Repr) && model == before && todo <= keyHandlers.Keys
        invariant id !in handlers
        invariant forall s :: s in keyHandlers && s !in todo ==> s in model.kids && !Holds(model.kids[s], id)
        decreases todo
      {
        var s :| s in todo;
        removed := RemoveBelow(s, id);
        if removed != 0 {
          return;
        }
        todo := todo - {s};
      }
      HoldsAt(before, id);
      RemoveAbsent(before, id);
      return 0;
    }
  }

  lemma Reassociate<T>(a: seq<T>, b: seq<T>, c: seq<T>, d: seq<T>)
    ensures a + b + c + d == a + (b + (c + d))
  {
  }

  /** The number occurs at most once. */
  ghost predicate Once<H>(t: Trie<H>, id: nat) {
    Absent(t, id) || exists p :: OnlyAt(t, id, p)
  }

  lemma OnceKid<H>(t: Trie<H>, id: nat, s: string)
    requires Once(t, id) && s in t.kids && id !in t.handlers
    ensures Once(t.kids[s], id)
    ensures Holds(t.kids[s], id) ==> forall r :: r in t.kids && r != s ==> !Holds(t.kids[r], id)
  {
    forall r | r in t.kids ensures Holds(t.kids[r], id) <==> !Absent(t.kids[r], id) {
      HoldsAt(t.kids[r], id);
    }
    if Absent(t, id) {
      forall r | r in t.kids ensures Absent(t.kids[r], id) {
        AbsentKid(t, id, r);
      }
    } else {
      var p :| OnlyAt(t, id, p);
      assert id in At(t, p);
      OnlyAtKid(t, id, p);
      if s != p[0] {
        assert Absent(t.kids[s], id);
      }
    }
  }

  lemma RemoveFromKid<H>(t: Trie<H>, id: nat, s: string)
    requires Once(t, id) && s in t.kids && id !in t.handlers && Holds(t.kids[s], id)
    ensures var kid := Remove(t.kids[s], id);
      Remove(t, id) == t.(kids := if IsEmpty(kid) then t.kids - {s} else t.kids[s := kid])
  {
    OnceKid(t, id, s);
    var kid := Remove(t.kids[s], id);
    var kids := if IsEmpty(kid) then t.kids - {s} else t.kids[s := kid];
    assert Remove(t, id).kids.Keys == kids.Keys;
    assert Remove(t, id).kids == kids;
  }

  datatype Subscribed<H> = Subscribed(key: EventKey, handler: H)

  ghost function Paths<H>(log: map<nat, Subscribed<H>>): map<nat, Subscription<H>> {
    map id | id in log :: Subscription(Path(log[id].key.Selectors()), log[id].handler)
  }

  lemma PathsAdded<H>(log: map<nat, Subscribed<H>>, id: nat, key: EventKey, h: H)
    ensures Paths(log[id := Subscribed(key, h)]) == Paths(log)[id := Subscription(Path(key.Selectors()), h)]
  {
  }

  lemma PathsRemoved<H>(log: map<nat, Subscribed<H>>, id: nat)
    ensures Paths(log - {id}) == Paths(log) - {id}
  {
  }

  class EventDispatcher<H> {
    var subscriptions: EventSubscriptions<H>
    var index: nat
    /** The subscriptions in force, by number. */
    ghost var log: map<nat, Subscribed<H>>

    ghost predicate Valid()
      reads this, subscriptions, subscriptions.Repr
    {
      && this !in subscriptions.Repr && subscriptions.Valid()
      && Represents(subscriptions.model, Paths(log))
      && forall id :: id in log ==> id < index
    }

    constructor ()
      ensures Valid() && log == map[] && index == 1 && fresh(subscriptions.Repr)
    {
      subscriptions := new EventSubscriptions();
      index, log := 1, map[];
      EmptyRepresents<H>();
      assert Paths<H>(map[]) == map[];
    }

    method Subscribe(handler: H, key: EventKey) returns (id: nat)
      requires Valid()
      modifies this, subscriptions.Repr
      ensures Valid() && fresh(subscriptions.Repr - old(subscriptions.Repr))
      ensures id !in old(log) && log == old(log)[id := Subscribed(key, handler)]
      ensures id == old(index) && index == old(index) + 1
    {
      id := index;
      index := index + 1;
      InsertRepresents(subscriptions.model, Paths(log), key.Selectors(), id, handler);
      assert key.Selectors()[0..] == key.Selectors();
      subscriptions.DoInsert(key.Selectors(), handler, id, 0);
      PathsAdded(log, id, key, handler);
      log := log[id := Subscribed(key, handler)];
    }

    method Unsubscribe(id: nat)
      requires Valid()
      modifies this, subscriptions.Repr
      ensures Valid() && subscriptions.Repr == old(subscriptions.Repr)
      ensures log == old(log) - {id} && index == old(index)
    {
      RemoveRepresents(subscriptions.model, Paths(log), id);
      assert id in log ==> OnlyAt(subscriptions.model, id, Paths(log)[id].path);
      var removed := subscriptions.DoRemove(id);
      PathsRemoved(log, id);
      log := log - {id};
    }

    /** The handlers a published event is passed to: those whose key is, in each field, empty or the event's own. */
    method Matching(event: EventKey) returns (found: seq<Entry<H>>)
      requires Valid()
      ensures forall e: Entry<H> {:trigger multiset(found)[e]} :: multiset(found)[e] > 0 <==>
        && e.id in log && log[e.id].handler == e.handler
        && var key := log[e.id].key;
           && (key.category == "" || key.category == event.category) && (key.event == "" || key.event == event.event)
           && (key.envId == "" || key.envId == event.envId) && (key.topic == "" || key.topic == event.topic)
           && (key.oid == "" || key.oid == event.oid) && (key.subject == "" || key.subject == event.subject)
      ensures forall e: Entry<H> {:trigger multiset(found)[e]} :: multiset(found)[e] > 0 ==>
        && e.id in log && |Path(log[e.id].key.Selectors())| <= 6
        && multiset(found)[e] == Pow2(BothEmpty(Path(log[e.id].key.Selectors()), event.Selectors()))
        && (multiset(found)[e] == 1 <==> FoundOnce(log[e.id].key, event))
    {
      found := subscriptions.DoFind(event.Selectors(), [], 0);
      assert event.Selectors()[0..] == event.Selectors();
      assert found == Find(subscriptions.model, event.Selectors());
      forall e: Entry<H> ensures e.id in log ==> |Path(log[e.id].key.Selectors())| <= 6
        ensures multiset(found)[e]
          == if e.id in log && log[e.id].handler == e.handler
                && Meets(log[e.id].key, event)
             then Pow2(BothEmpty(Path(log[e.id].key.Selectors()), event.Selectors())) else 0
        ensures multiset(found)[e] > 0 <==>
          e.id in log && log[e.id].handler == e.handler && Meets(log[e.id].key, event)
        ensures e.id in log && Meets(log[e.id].key, event) && log[e.id].handler == e.handler ==>
          (multiset(found)[e] == 1 <==> FoundOnce(log[e.id].key, event))
      {
        FindIsScan(subscriptions.model, Paths(log), event.Selectors(), e);
        if e.id in log { KeyMeets(log[e.id].key, event); }
      }
    }
  }

  /** In each field the key is empty or the event's own. */
  ghost predicate Meets(key: EventKey, event: EventKey) {
    && (key.category == "" || key.category == event.category) && (key.event == "" || key.event == event.event)
    && (key.envId == "" || key.envId == event.envId) && (key.topic == "" || key.topic == event.topic)
    && (key.oid == "" || key.oid == event.oid) && (key.subject == "" || key.subject == event.subject)
  }

  /** Before the last field that the key sets, the key and the event are nowhere both empty. */
  ghost predicate FoundOnce(key: EventKey, event: EventKey) {
    var k := [key.category, key.event, key.envId, key.topic, key.oid, key.subject];
    var e := [event.category, event.event, event.envId, event.topic, event.oid, event.subject];
    forall i, j :: 0 <= i < j < 6 && k[j] != "" ==> !(k[i] == "" == e[i])
  }

  lemma KeyMeets(key: EventKey, event: EventKey)
    ensures Matches(Path(key.Selectors()), event.Selectors()) <==> Meets(key, event)
    ensures |Path(key.Selectors())| <= 6 && Pow2(BothEmpty(Path(key.Selectors()), event.Selectors())) >= 1
    ensures Pow2(BothEmpty(Path(key.Selectors()), event.Selectors())) == 1 <==> FoundOnce(key, event)
  {
    var k, e := key.Selectors(), event.Selectors();
    PathMatches(k, e);
    PathOnce(k, e);
    if Meets(key, event) {
      forall i | 0 <= i < 6 ensures k[i] == "" || k[i] == e[i] {}
    } else {
      assert !(forall i :: 0 <= i < 6 ==> k[i] == "" || k[i] == e[i]) by {
        assert k[0] == key.category && k[1] == key.event && k[2] == key.envId;
        assert k[3] == key.topic && k[4] == key.oid && k[5] == key.subject;
        assert e[0] == event.category && e[1] == event.event && e[2] == event.envId;
        assert e[3] == event.topic && e[4] == event.oid && e[5] == event.subject;
      }
    }
  }
}
