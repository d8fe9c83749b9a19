/** Subscriptions of the event dispatcher as a value: a trie over the selectors of a key, where an empty selector
    stands for any value. */
module SubscriptionTrie {

  /** A handler with the number it was subscribed under. */
  datatype Entry<H> = Entry(id: nat, handler: H)

  datatype Trie<H> = Trie(handlers: map<nat, H>, kids: map<string, Trie<H>>)

  function Empty<H>(): Trie<H> {
    Trie(map[], map[])
  }

  predicate IsEmpty<H>(t: Trie<H>) {
    t.handlers == map[] && t.kids == map[]
  }

  /** All selectors from here on are empty. */
  predicate SubNull(key: seq<string>) {
    forall s :: s in key ==> s == ""
  }

  /** A key without its empty tail: the path of its node. */
  function Path(key: seq<string>): seq<string> {
    if SubNull(key) then [] else [key[0]] + Path(key[1..])
  }

  /** The path is the key up to its last selector that is not empty. */
  lemma {:induction false} PathMeans(key: seq<string>)
    ensures |Path(key)| <= |key| && Path(key) == key[..|Path(key)|]
    ensures forall i :: |Path(key)| <= i < |key| ==> key[i] == ""
    ensures Path(key) != [] ==> key[|Path(key)| - 1] != ""
  {
    if !SubNull(key) {
      var rest := key[1..];
      PathMeans(rest);
      assert forall i :: 0 < i < |key| ==> key[i] == rest[i - 1];
      assert Path(key) == [key[0]] + Path(rest);
      if Path(rest) == [] {
        assert key == [key[0]] + rest;
        assert forall s :: s in key ==> s == key[0] || s in rest;
        assert forall s :: s in rest ==> s == "";
      } else {
        assert Path(key)[|Path(key)| - 1] == Path(rest)[|Path(rest)| - 1];
      }
    } else {
      assert forall i :: 0 <= i < |key| ==> key[i] in key;
    }
  }

  // ---------- operations ----------

  function Kid<H>(t: Trie<H>, s: string): Trie<H> {
    if s in t.kids then t.kids[s] else Empty()
  }

  function Insert<H>(t: Trie<H>, key: seq<string>, id: nat, h: H): Trie<H>
    decreases |key|
  {
    if SubNull(key) then t.(handlers := t.handlers[id := h])
    else t.(kids := t.kids[key[0] := Insert(Kid(t, key[0]), key[1..], id, h)])
  }

  predicate IsLeast(m: nat, s: set<nat>) {
    m in s && forall x :: x in s ==> m <= x
  }

  function Least(s: set<nat>): (m: nat)
    requires s != {}
    ensures IsLeast(m, s)
  {
    LeastExists(s);
    var m :| IsLeast(m, s);
    m
  }

  lemma {:induction false} LeastExists(s: set<nat>)
    requires s != {}
    ensures exists m :: IsLeast(m, s)
  {
    var x :| x in s;
    if s == {x} {
      assert IsLeast(x, s);
    } else {
      LeastExists(s - {x});
      var m :| IsLeast(m, s - {x});
      var least := if x < m then x else m;
      forall y | y in s ensures least <= y {
        if y != x { assert y in s - {x}; }
      }
      assert IsLeast(least, s);
    }
  }

  /** The handlers of one node, in the order of their numbers. */
  function Listing<H>(m: map<nat, H>): seq<Entry<H>>
    decreases |m|
  {
    if m == map[] then []
    else
      var id := Least(m.Keys);
      assert (m - {id}).Keys == m.Keys - {id};
      [Entry(id, m[id])] + Listing(m - {id})
  }

  /** The handlers of the nodes reached by following each selector of the event and the empty selector. */
  function Find<H>(t: Trie<H>, event: seq<string>): seq<Entry<H>>
    decreases |event|
  {
    var here := Listing(t.handlers);
    if event == [] then here
    else
      var same := if event[0] in t.kids then Find(t.kids[event[0]], event[1..]) else [];
      var any := if "" in t.kids then Find(t.kids[""], event[1..]) else [];
      here + (same + any)
  }

  predicate Holds<H>(t: Trie<H>, id: nat) {
    id in t.handlers || exists s :: s in t.kids && Holds(t.kids[s], id)
  }

  /** Removes a number from the node that has it, and drops the nodes that this leaves empty. */
  function Remove<H>(t: Trie<H>, id: nat): Trie<H> {
    if id in t.handlers then t.(handlers := t.handlers - {id})
    else
      t.(kids := map s | s in t.kids && !(Holds(t.kids[s], id) && IsEmpty(Remove(t.kids[s], id)))
                     :: if Holds(t.kids[s], id) then Remove(t.kids[s], id) else t.kids[s])
  }

  // ---------- what a trie stands for ----------

  /** The handlers at a path. */
  function At<H>(t: Trie<H>, p: seq<string>): map<nat, H>
    decreases |p|
  {
    if p == [] then t.handlers
    else if p[0] in t.kids then At(t.kids[p[0]], p[1..])
    else map[]
  }

  /** Only the root may be empty. */
  ghost predicate Pruned<H>(t: Trie<H>) {
    forall s :: s in t.kids ==> !IsEmpty(t.kids[s]) && Pruned(t.kids[s])
  }

  lemma AtKid<H>(t: Trie<H>, s: string, p: seq<string>)
    ensures At(t, [s] + p) == At(Kid(t, s), p)
  {
    assert ([s] + p)[1..] == p;
    if s !in t.kids && p != [] {
      assert At(Kid(t, s), p) == map[];
    }
  }

  /** Inserting adds one handler at the path of its key and nothing else. */
  lemma {:induction false} InsertAt<H>(t: Trie<H>, key: seq<string>, id: nat, h: H, p: seq<string>)
    ensures At(Insert(t, key, id, h), p) == if p == Path(key) then At(t, p)[id := h] else At(t, p)
    decreases |key|
  {
    if !SubNull(key) && p != [] {
      var q := p[1..];
      assert p == [p[0]] + q;
      if p[0] == key[0] {
        InsertAt(Kid(t, key[0]), key[1..], id, h, q);
        AtKid(t, key[0], q);
        assert Path(key)[1..] == Path(key[1..]);
      }
    }
  }

  lemma {:induction false} InsertPruned<H>(t: Trie<H>, key: seq<string>, id: nat, h: H)
    requires Pruned(t)
    ensures Pruned(Insert(t, key, id, h)) && !IsEmpty(Insert(t, key, id, h))
    decreases |key|
  {
    if SubNull(key) {
      assert id in Insert(t, key, id, h).handlers;
    } else {
      InsertPruned(Kid(t, key[0]), key[1..], id, h);
      assert key[0] in Insert(t, key, id, h).kids;
    }
  }

  /** The number is nowhere in the trie. */
  ghost predicate Absent<H>(t: Trie<H>, id: nat) {
    forall p :: id !in At(t, p)
  }

  lemma AbsentKid<H>(t: Trie<H>, id: nat, s: string)
    requires Absent(t, id) && s in t.kids
    ensures Absent(t.kids[s], id)
  {
    forall p ensures id !in At(t.kids[s], p) {
      AtKid(t, s, p);
      assert id !in At(t, [s] + p);
    }
  }

  lemma {:induction false} HoldsAt<H>(t: Trie<H>, id: nat)
    ensures Holds(t, id) <==> !Absent(t, id)
    decreases t
  {
    if id in t.handlers {
      assert id in At(t, []);
    } else {
      forall s | s in t.kids ensures Holds(t.kids[s], id) <==> !Absent(t.kids[s], id) {
        HoldsAt(t.kids[s], id);
      }
      if s :| s in t.kids && Holds(t.kids[s], id) {
        if Absent(t, id) {
          AbsentKid(t, id, s);
        }
      }
      if !Holds(t, id) {
        forall p ensures id !in At(t, p) {
          if p != [] && p[0] in t.kids {
            assert Absent(t.kids[p[0]], id);
          }
        }
      }
    }
  }

  /** Removing the number just inserted restores the trie exactly. */
  lemma {:induction false} RemoveInserted<H>(t: Trie<H>, key: seq<string>, id: nat, h: H)
    requires Pruned(t) && Absent(t, id)
    ensures Holds(Insert(t, key, id, h), id)
    ensures Remove(Insert(t, key, id, h), id) == t
    decreases |key|
  {
    assert id !in At(t, []);
    var r := Insert(t, key, id, h);
    if SubNull(key) {
      assert r.handlers - {id} == t.handlers;
    } else {
      var s := key[0];
      var kid := Kid(t, s);
      if s in t.kids {
        AbsentKid(t, id, s);
      } else {
        forall p ensures id !in At(kid, p) {}
      }
      RemoveInserted(kid, key[1..], id, h);
      assert r.kids[s] == Insert(kid, key[1..], id, h);
      forall x | x in t.kids && x != s ensures !Holds(r.kids[x], id) {
        AbsentKid(t, id, x);
        HoldsAt(t.kids[x], id);
      }
      var back := Remove(r, id).kids;
      assert back.Keys == t.kids.Keys;
      assert back == t.kids;
    }
  }

  /** The number is at one path only. */
  ghost predicate OnlyAt<H>(t: Trie<H>, id: nat, p: seq<string>) {
    forall q :: id in At(t, q) <==> q == p
  }

  lemma OnlyAtKid<H>(t: Trie<H>, id: nat, p: seq<string>)
    requires OnlyAt(t, id, p) && p != []
    ensures id !in t.handlers && p[0] in t.kids && OnlyAt(t.kids[p[0]], id, p[1..])
    ensures forall s :: s in t.kids && s != p[0] ==> Absent(t.kids[s], id)
  {
    assert id in At(t, p) && (id in At(t, []) <==> [] == p);
    forall s, q | s in t.kids ensures id in At(t.kids[s], q) <==> s == p[0] && q == p[1..] {
      AtKid(t, s, q);
      assert id in At(t, [s] + q) <==> [s] + q == p;
      assert ([s] + q)[0] == s && ([s] + q)[1..] == q && p == [p[0]] + p[1..];
    }
  }

  lemma OnlyAtRoot<H>(t: Trie<H>, id: nat)
    requires OnlyAt(t, id, [])
    ensures id in t.handlers
    ensures forall s :: s in t.kids ==> Absent(t.kids[s], id)
  {
    assert id in At(t, []);
    forall s, q | s in t.kids ensures id !in At(t.kids[s], q) {
      AtKid(t, s, q);
      assert id in At(t, [s] + q) <==> [s] + q == [];
    }
  }

  /** Removing a number that is at one path takes it away there and leaves every other handler findable. */
  lemma {:induction false} RemoveAt<H>(t: Trie<H>, id: nat, p: seq<string>, q: seq<string>)
    requires OnlyAt(t, id, p)
    ensures At(Remove(t, id), q) == if q == p then At(t, q) - {id} else At(t, q)
    decreases |q|
  {
    if p == [] {
      OnlyAtRoot(t, id);
    } else {
      OnlyAtKid(t, id, p);
      if q != [] && q[0] in t.kids {
        var s := q[0];
        assert q == [s] + q[1..];
        HoldsAt(t.kids[s], id);
        if s == p[0] {
          assert p == [s] + p[1..];
          assert id in At(t.kids[s], p[1..]);
          RemoveAt(t.kids[s], id, p[1..], q[1..]);
          if IsEmpty(Remove(t.kids[s], id)) {
            assert At(Remove(t.kids[s], id), q[1..]) == map[];
          }
        }
      }
    }
  }

  lemma {:induction false} RemovePruned<H>(t: Trie<H>, id: nat)
    requires Pruned(t)
    ensures Pruned(Remove(t, id))
    decreases t
  {
    if id !in t.handlers {
      forall s | s in t.kids ensures Pruned(Remove(t.kids[s], id)) {
        RemovePruned(t.kids[s], id);
      }
    }
  }

  // ---------- search ----------

  /** How often an event reaches the handler of a path: never if a selector is set and differs, otherwise once,
      doubled for each level where the path and the event are both empty. */
  function Weight(p: seq<string>, event: seq<string>): nat
    decreases |p|
  {
    if p == [] then 1
    else if event == [] then 0
    else
      var same := if p[0] == event[0] then Weight(p[1..], event[1..]) else 0;
      var any := if p[0] == "" then Weight(p[1..], event[1..]) else 0;
      same + any
  }

  lemma {:induction false} ListingCount<H>(m: map<nat, H>, e: Entry<H>)
    ensures multiset(Listing(m))[e] == if e.id in m && m[e.id] == e.handler then 1 else 0
    decreases |m|
  {
    if m != map[] {
      var id := Least(m.Keys);
      assert (m - {id}).Keys == m.Keys - {id};
      ListingCount(m - {id}, e);
      assert Listing(m) == [Entry(id, m[id])] + Listing(m - {id});
    }
  }

  /** The handlers of a node are called in the order they were subscribed in. */
  lemma {:induction false} ListingSorted<H>(m: map<nat, H>)
    ensures forall e :: e in Listing(m) ==> e.id in m && m[e.id] == e.handler
    ensures forall i, j :: 0 <= i < j < |Listing(m)| ==> Listing(m)[i].id < Listing(m)[j].id
    decreases |m|
  {
    if m != map[] {
      var id := Least(m.Keys);
      var rest := m - {id};
      assert rest.Keys == m.Keys - {id};
      ListingSorted(rest);
      assert Listing(m) == [Entry(id, m[id])] + Listing(rest);
      assert forall e :: e in Listing(rest) ==> id < e.id;
      assert forall j :: 0 < j < |Listing(m)| ==> Listing(m)[j] == Listing(rest)[j - 1];
    }
  }

  lemma CountConcat<T>(a: seq<T>, b: seq<T>, x: T)
    ensures multiset(a + b)[x] == multiset(a)[x] + multiset(b)[x]
  {
    assert multiset(a + b) == multiset(a) + multiset(b);
  }

  lemma FindParts<H>(t: Trie<H>, event: seq<string>, e: Entry<H>)
    requires event != []
    ensures var x := if event[0] in t.kids then multiset(Find(t.kids[event[0]], event[1..]))[e] else 0;
      var y := if "" in t.kids then multiset(Find(t.kids[""], event[1..]))[e] else 0;
      multiset(Find(t, event))[e] == multiset(Listing(t.handlers))[e] + (x + y)
  {
    var a := if event[0] in t.kids then Find(t.kids[event[0]], event[1..]) else [];
    var b := if "" in t.kids then Find(t.kids[""], event[1..]) else [];
    CountConcat(a, b, e);
    CountConcat(Listing(t.handlers), a + b, e);
  }

  lemma {:induction false} FindAbsent<H>(t: Trie<H>, event: seq<string>, e: Entry<H>)
    requires Absent(t, e.id)
    ensures multiset(Find(t, event))[e] == 0
    decreases |event|
  {
    assert e.id !in At(t, []);
    ListingCount(t.handlers, e);
    if event == [] {
    } else {
      FindParts(t, event, e);
      if event[0] in t.kids {
        AbsentKid(t, e.id, event[0]);
        FindAbsent(t.kids[event[0]], event[1..], e);
      }
      if "" in t.kids {
        AbsentKid(t, e.id, "");
        FindAbsent(t.kids[""], event[1..], e);
      }
    }
  }

  /** A handler that is at one path is found as often as its weight says. */
  lemma {:induction false} FindCount<H>(t: Trie<H>, event: seq<string>, e: Entry<H>, p: seq<string>)
    requires OnlyAt(t, e.id, p)
    ensures e.id in At(t, p)
    ensures multiset(Find(t, event))[e] == if At(t, p)[e.id] == e.handler then Weight(p, event) else 0
    decreases |p|
  {
    ListingCount(t.handlers, e);
    if p == [] {
      OnlyAtRoot(t, e.id);
      if event == [] {
      } else {
        FindParts(t, event, e);
        if event[0] in t.kids { FindAbsent(t.kids[event[0]], event[1..], e); }
        if "" in t.kids { FindAbsent(t.kids[""], event[1..], e); }
      }
    } else {
      OnlyAtKid(t, e.id, p);
      if event == [] {
      } else {
        FindParts(t, event, e);
        FindCount(t.kids[p[0]], event[1..], e, p[1..]);
        if event[0] in t.kids && event[0] != p[0] { FindAbsent(t.kids[event[0]], event[1..], e); }
        if "" in t.kids && p[0] != "" { FindAbsent(t.kids[""], event[1..], e); }
      }
    }
  }

  // ---------- the order of what is found ----------

  /** The path taken by an event that at each level follows its own selector or, where marked, the empty one. */
  function Followed(event: seq<string>, any: seq<bool>): seq<string>
    requires |any| <= |event|
  {
    seq(|any|, i requires 0 <= i < |any| => if any[i] then "" else event[i])
  }

  /** A node is before those below it, and at a parting the event's own selector before the empty one. */
  ghost predicate Earlier(a: seq<bool>, b: seq<bool>) {
    exists d: nat :: d <= |a| && d < |b| && a[..d] == b[..d] && (d == |a| || (!a[d] && b[d]))
  }

  /** The entry is the handler of the node reached that way. */
  ghost predicate FoundBy<H>(t: Trie<H>, event: seq<string>, e: Entry<H>, any: seq<bool>) {
    && |any| <= |event|
    && var m := At(t, Followed(event, any)); e.id in m && m[e.id] == e.handler
  }

  ghost predicate AllFoundBy<H>(t: Trie<H>, event: seq<string>, found: seq<Entry<H>>, ways: seq<seq<bool>>) {
    |ways| == |found| && forall i :: 0 <= i < |found| ==> FoundBy(t, event, found[i], ways[i])
  }

  ghost predicate InTurn<H>(found: seq<Entry<H>>, ways: seq<seq<bool>>) {
    && |ways| == |found|
    && forall i, j :: 0 <= i < j < |found| ==>
         Earlier(ways[i], ways[j]) || (ways[i] == ways[j] && found[i].id < found[j].id)
  }

  /** All ways with one more step in front. */
  function Behind(step: bool, ways: seq<seq<bool>>): seq<seq<bool>> {
    seq(|ways|, i requires 0 <= i < |ways| => [step] + ways[i])
  }

  lemma EarlierBehind(step: bool, a: seq<bool>, b: seq<bool>)
    ensures Earlier(a, b) ==> Earlier([step] + a, [step] + b)
  {
    if d: nat :| d <= |a| && d < |b| && a[..d] == b[..d] && (d == |a| || (!a[d] && b[d])) {
      assert ([step] + a)[..d + 1] == [step] + a[..d] && ([step] + b)[..d + 1] == [step] + b[..d];
    }
  }

  lemma InTurnBehind<H>(found: seq<Entry<H>>, step: bool, ways: seq<seq<bool>>)
    requires InTurn(found, ways)
    ensures InTurn(found, Behind(step, ways))
  {
    forall i, j | 0 <= i < j < |found|
      ensures Earlier([step] + ways[i], [step] + ways[j]) || (ways[i] == ways[j] && found[i].id < found[j].id)
    {
      EarlierBehind(step, ways[i], ways[j]);
    }
  }

  lemma FoundBehind<H>(t: Trie<H>, event: seq<string>, step: bool, e: Entry<H>, any: seq<bool>)
    requires event != []
    requires var s := if step then "" else event[0]; s in t.kids && FoundBy(t.kids[s], event[1..], e, any)
    ensures FoundBy(t, event, e, [step] + any)
  {
    var s := if step then "" else event[0];
    assert Followed(event, [step] + any) == [s] + Followed(event[1..], any);
    AtKid(t, s, Followed(event[1..], any));
  }

  lemma InTurnAppend<H>(f: seq<Entry<H>>, a: seq<seq<bool>>, g: seq<Entry<H>>, b: seq<seq<bool>>)
    requires InTurn(f, a) && InTurn(g, b) && forall x, y :: x in a && y in b ==> Earlier(x, y)
    ensures InTurn(f + g, a + b)
  {
    forall i, j | 0 <= i < j < |f + g|
      ensures Earlier((a + b)[i], (a + b)[j]) || ((a + b)[i] == (a + b)[j] && (f + g)[i].id < (f + g)[j].id)
    {
      if i < |f| <= j {
        assert (a + b)[i] in a && (a + b)[j] in b;
      }
    }
  }

  /** What is found below one selector, with that step in front. */
  lemma FoundBelow<H>(t: Trie<H>, event: seq<string>, step: bool, found: seq<Entry<H>>, ways: seq<seq<bool>>)
    requires event != []
    requires var s := if step then "" else event[0];
      s in t.kids && AllFoundBy(t.kids[s], event[1..], found, ways)
    requires InTurn(found, ways)
    ensures InTurn(found, Behind(step, ways)) && AllFoundBy(t, event, found, Behind(step, ways))
  {
    InTurnBehind(found, step, ways);
    forall i | 0 <= i < |found| ensures FoundBy(t, event, found[i], Behind(step, ways)[i]) {
      FoundBehind(t, event, step, found[i], ways[i]);
    }
  }

  lemma FoundHere<H>(t: Trie<H>, event: seq<string>, ways: seq<seq<bool>>)
    requires |ways| == |Listing(t.handlers)| && forall i :: 0 <= i < |ways| ==> ways[i] == []
    ensures InTurn(Listing(t.handlers), ways) && AllFoundBy(t, event, Listing(t.handlers), ways)
  {
    var here := Listing(t.handlers);
    ListingSorted(t.handlers);
    assert Followed(event, []) == [];
    forall i | 0 <= i < |here| ensures FoundBy(t, event, here[i], ways[i]) {
      assert here[i] in here;
    }
  }

  lemma AllFoundAppend<H>(t: Trie<H>, event: seq<string>, f: seq<Entry<H>>, a: seq<seq<bool>>, g: seq<Entry<H>>,
                          b: seq<seq<bool>>)
    requires AllFoundBy(t, event, f, a) && AllFoundBy(t, event, g, b)
    ensures AllFoundBy(t, event, f + g, a + b)
  {
  }

  /** What is found behind one step, if there is such a node. */
  lemma FoundBranch<H>(t: Trie<H>, event: seq<string>, step: bool) returns (ways: seq<seq<bool>>)
    requires event != []
    ensures var s := if step then "" else event[0];
      var found := if s in t.kids then Find(t.kids[s], event[1..]) else [];
      InTurn(found, Behind(step, ways)) && AllFoundBy(t, event, found, Behind(step, ways))
    decreases |event|, 0
  {
    var s := if step then "" else event[0];
    ways := [];
    if s in t.kids {
      ways := FoundInOrder(t.kids[s], event[1..]);
      FoundBelow(t, event, step, Find(t.kids[s], event[1..]), ways);
    }
  }

  /** Handlers are found in this order: those of a node as they were subscribed, before all that are below it, and below
      the event's own selector before below the empty one. */
  lemma {:induction false} FoundInOrder<H>(t: Trie<H>, event: seq<string>) returns (ways: seq<seq<bool>>)
    ensures InTurn(Find(t, event), ways) && AllFoundBy(t, event, Find(t, event), ways)
    decreases |event|, 1
  {
    var here := Listing(t.handlers);
    ways := seq(|here|, i => []);
    FoundHere(t, event, ways);
    if event != [] {
      hide Earlier, FoundBy;
      var same := if event[0] in t.kids then Find(t.kids[event[0]], event[1..]) else [];
      var any := if "" in t.kids then Find(t.kids[""], event[1..]) else [];
      var first := FoundBranch(t, event, false);
      var second := FoundBranch(t, event, true);
      var below := Behind(false, first) + Behind(true, second);
      FirstThen(first, second);
      InTurnAppend(same, Behind(false, first), any, Behind(true, second));
      AllFoundAppend(t, event, same, Behind(false, first), any, Behind(true, second));
      InTurnAppend(here, ways, same + any, below);
      AllFoundAppend(t, event, here, ways, same + any, below);
      ways := ways + below;
    }
  }

  lemma FirstThen(first: seq<seq<bool>>, second: seq<seq<bool>>)
    ensures forall x, y :: x in Behind(false, first) && y in Behind(true, second) ==> Earlier(x, y)
    ensures forall y :: y in Behind(false, first) + Behind(true, second) ==> Earlier([], y)
  {
    forall x, y | x in Behind(false, first) && y in Behind(true, second) ensures Earlier(x, y) {
      assert x[..0] == y[..0] && !x[0] && y[0];
    }
    forall y | y in Behind(false, first) + Behind(true, second) ensures Earlier([], y) {
      assert [] == y[..0];
    }
  }

  // ---------- what subscribers are promised ----------

  /** Every selector of the path is empty or the event's own. */
  ghost predicate Matches(p: seq<string>, event: seq<string>) {
    |p| <= |event| && forall i :: 0 <= i < |p| ==> p[i] == "" || p[i] == event[i]
  }

  /** An event matches a subscription exactly if every selector of the whole key is empty or the event's own. */
  lemma PathMatches(key: seq<string>, event: seq<string>)
    requires |key| == |event|
    ensures Matches(Path(key), event) <==> forall i :: 0 <= i < |key| ==> key[i] == "" || key[i] == event[i]
  {
    PathMeans(key);
    assert forall i :: 0 <= i < |Path(key)| ==> Path(key)[i] == key[i];
  }

  /** It is passed on just once exactly if no selector of the key is empty, where the event's is, before one that is
      not. */
  lemma PathOnce(key: seq<string>, event: seq<string>)
    requires |key| == |event|
    ensures |Path(key)| <= |event| && Pow2(BothEmpty(Path(key), event)) >= 1
    ensures Pow2(BothEmpty(Path(key), event)) == 1 <==>
      forall i, j :: 0 <= i < j < |key| && key[j] != "" ==> !(key[i] == "" == event[i])
  {
    PathMeans(key);
    var p := Path(key);
    Pow2One(BothEmpty(p, event));
    NoneEmpty(p, event);
    assert forall i :: 0 <= i < |p| ==> p[i] == key[i];
    if i :| 0 <= i < |p| && p[i] == "" == event[i] {
      assert i < |p| - 1 && key[|p| - 1] != "" && key[i] == "" == event[i];
    }
  }

  /** Number of levels where both are empty. */
  function BothEmpty(p: seq<string>, event: seq<string>): nat
    requires |p| <= |event|
  {
    if p == [] then 0 else (if p[0] == "" == event[0] then 1 else 0) + BothEmpty(p[1..], event[1..])
  }

  function Pow2(n: nat): nat {
    if n == 0 then 1 else 2 * Pow2(n - 1)
  }

  lemma {:induction false} WeightMeans(p: seq<string>, event: seq<string>)
    ensures Weight(p, event) == if Matches(p, event) then Pow2(BothEmpty(p, event)) else 0
  {
    if p != [] && event != [] {
      WeightMeans(p[1..], event[1..]);
      assert Matches(p, event) <==> (p[0] == "" || p[0] == event[0]) && Matches(p[1..], event[1..]) by {
        if (p[0] == "" || p[0] == event[0]) && Matches(p[1..], event[1..]) {
          forall i | 0 <= i < |p| ensures p[i] == "" || p[i] == event[i] {
            if i > 0 { assert p[i] == p[1..][i - 1] && event[i] == event[1..][i - 1]; }
          }
        }
      }
    }
  }

  datatype Subscription<H> = Subscription(path: seq<string>, handler: H)

  /** The trie stands for these subscriptions, by number, and for no other. */
  ghost predicate Represents<H>(t: Trie<H>, subs: map<nat, Subscription<H>>) {
    && Pruned(t)
    && (forall id :: id in subs ==> OnlyAt(t, id, subs[id].path) && At(t, subs[id].path)[id] == subs[id].handler)
    && (forall id :: id !in subs ==> Absent(t, id))
  }

  lemma EmptyRepresents<H>()
    ensures Represents(Empty<H>(), map[])
  {
    forall id: nat, p: seq<string> ensures id !in At(Empty<H>(), p) {}
  }

  lemma InsertRepresents<H>(t: Trie<H>, subs: map<nat, Subscription<H>>, key: seq<string>, id: nat, h: H)
    requires Represents(t, subs) && id !in subs
    ensures Represents(Insert(t, key, id, h), subs[id := Subscription(Path(key), h)])
  {
    var r, after := Insert(t, key, id, h), subs[id := Subscription(Path(key), h)];
    InsertPruned(t, key, id, h);
    forall p ensures At(r, p) == if p == Path(key) then At(t, p)[id := h] else At(t, p) {
      InsertAt(t, key, id, h, p);
    }
    forall x | x in after ensures OnlyAt(r, x, after[x].path) && At(r, after[x].path)[x] == after[x].handler {
      if x == id {
        assert Absent(t, id);
      } else {
        assert OnlyAt(t, x, subs[x].path);
      }
    }
    forall x: nat | x !in after ensures Absent(r, x) {
      assert Absent(t, x);
    }
  }

  lemma {:induction false} RemoveAbsent<H>(t: Trie<H>, id: nat)
    requires Absent(t, id)
    ensures Remove(t, id) == t
  {
    HoldsAt(t, id);
    assert Remove(t, id).kids == t.kids;
  }

  lemma RemoveRepresents<H>(t: Trie<H>, subs: map<nat, Subscription<H>>, id: nat)
    requires Represents(t, subs)
    ensures Represents(Remove(t, id), subs - {id})
  {
    var r, after := Remove(t, id), subs - {id};
    RemovePruned(t, id);
    if id in subs {
      var p := subs[id].path;
      forall q ensures At(r, q) == if q == p then At(t, q) - {id} else At(t, q) {
        RemoveAt(t, id, p, q);
      }
      forall x | x in after ensures OnlyAt(r, x, after[x].path) && At(r, after[x].path)[x] == after[x].handler {
        assert OnlyAt(t, x, subs[x].path);
      }
      forall x: nat | x !in after ensures Absent(r, x) {
        if x != id { assert Absent(t, x); } else { assert OnlyAt(t, id, p); }
      }
    } else {
      assert Absent(t, id);
      RemoveAbsent(t, id);
      assert after == subs;
    }
  }

  /** Search equals a scan of all subscriptions: a subscription is found if and only if its key matches the event, and
      then once for every way of choosing, at each level where both are empty, between the two equal branches. */
  lemma FindIsScan<H>(t: Trie<H>, subs: map<nat, Subscription<H>>, event: seq<string>, e: Entry<H>)
    requires Represents(t, subs)
    ensures multiset(Find(t, event))[e]
         == if e.id in subs && subs[e.id].handler == e.handler && Matches(subs[e.id].path, event)
            then Pow2(BothEmpty(subs[e.id].path, event)) else 0
  {
    if e.id in subs {
      WeightMeans(subs[e.id].path, event);
      FindCount(t, event, e, subs[e.id].path);
    } else {
      FindAbsent(t, event, e);
    }
  }

  lemma {:induction false} Pow2One(n: nat)
    ensures Pow2(n) == 1 <==> n == 0
    ensures Pow2(n) >= 1
  {
    if n > 0 { Pow2One(n - 1); }
  }

  /** A matching subscriber is called exactly once if and only if no level is empty in both the subscription and the
      event. */
  lemma CalledOnce<H>(t: Trie<H>, subs: map<nat, Subscription<H>>, event: seq<string>, id: nat)
    requires Represents(t, subs) && id in subs && Matches(subs[id].path, event)
    ensures multiset(Find(t, event))[Entry(id, subs[id].handler)] == 1
       <==> forall i :: 0 <= i < |subs[id].path| ==> !(subs[id].path[i] == "" == event[i])
  {
    var p := subs[id].path;
    FindIsScan(t, subs, event, Entry(id, subs[id].handler));
    Pow2One(BothEmpty(p, event));
    NoneEmpty(p, event);
  }

  lemma {:induction false} NoneEmpty(p: seq<string>, event: seq<string>)
    requires |p| <= |event|
    ensures BothEmpty(p, event) == 0 <==> forall i :: 0 <= i < |p| ==> !(p[i] == "" == event[i])
  {
    if p != [] {
      NoneEmpty(p[1..], event[1..]);
      if p[0] == "" == event[0] {
        assert !(forall i :: 0 <= i < |p| ==> !(p[i] == "" == event[i]));
      } else if BothEmpty(p[1..], event[1..]) == 0 {
        forall i | 0 <= i < |p| ensures !(p[i] == "" == event[i]) {
          if i > 0 { assert p[i] == p[1..][i - 1] && event[i] == event[1..][i - 1]; }
        }
      } else {
        var i :| 0 <= i < |p[1..]| && p[1..][i] == "" == event[1..][i];
        assert p[i + 1] == "" == event[i + 1];
      }
    }
  }
}
