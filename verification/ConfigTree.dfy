/** Configuration trees: a node is unset, a scalar, an array of scalars of one type, an array of trees, or a map. */
module ConfigTrees {

  datatype Scalar = Int(i: int) | Double(d: real) | Bool(b: bool) | String(s: string)

  datatype ScalarType = IntType | DoubleType | BoolType | StringType

  function TypeOf(s: Scalar): ScalarType {
    match s
    case Int(_) => IntType
    case Double(_) => DoubleType
    case Bool(_) => BoolType
    case String(_) => StringType
  }

  datatype Tree =
    | Unset
    | Leaf(value: Scalar)
    | Scalars(elem: ScalarType, items: seq<Scalar>)
    | Trees(nodes: seq<Tree>)
    | Map(kids: map<string, Tree>)

  // ---------- the order of map keys ----------

  predicate Before(a: string, b: string) {
    b != [] && (a == [] || a[0] < b[0] || (a[0] == b[0] && Before(a[1..], b[1..])))
  }

  /** A proper beginning comes first, and else the first character that differs decides. */
  lemma {:induction false} BeforeMeans(a: string, b: string)
    ensures Before(a, b) <==>
      || (|a| < |b| && a == b[..|a|])
      || exists i :: 0 <= i < |a| && i < |b| && a[..i] == b[..i] && a[i] < b[i]
  {
    if a != [] && b != [] {
      if a[0] < b[0] {
        assert a[..0] == b[..0];
      } else if a[0] == b[0] {
        BeforeMeans(a[1..], b[1..]);
        assert |a| < |b| ==> (a == b[..|a|] <==> a[1..] == b[1..][..|a[1..]|]);
        if i :| 0 <= i < |a[1..]| && i < |b[1..]| && a[1..][..i] == b[1..][..i] && a[1..][i] < b[1..][i] {
          assert a[..i + 1] == [a[0]] + a[1..][..i] && b[..i + 1] == [b[0]] + b[1..][..i];
        }
        if i :| 0 <= i < |a| && i < |b| && a[..i] == b[..i] && a[i] < b[i] {
          assert i > 0 && a[1..][..i - 1] == a[..i][1..] && b[1..][..i - 1] == b[..i][1..];
        }
      } else {
        assert forall i :: 0 < i < |a| && i < |b| ==> a[..i][0] == a[0] && b[..i][0] == b[0];
      }
    }
  }

  lemma {:induction false} BeforeTotal(a: string, b: string)
    ensures a == b || Before(a, b) || Before(b, a)
  {
    if a != [] && b != [] && a[0] == b[0] {
      BeforeTotal(a[1..], b[1..]);
      assert a == [a[0]] + a[1..] && b == [b[0]] + b[1..];
    }
  }

  lemma {:induction false} BeforeTransitive(a: string, b: string, c: string)
    requires Before(a, b) && Before(b, c)
    ensures Before(a, c)
  {
    if a != [] && a[0] == b[0] && b[0] == c[0] {
      BeforeTransitive(a[1..], b[1..], c[1..]);
    }
  }

  lemma {:induction false} BeforeIrreflexive(a: string)
    ensures !Before(a, a)
  {
    if a != [] { BeforeIrreflexive(a[1..]); }
  }

  predicate IsFirst(k: string, keys: set<string>) {
    k in keys && forall x :: x in keys && x != k ==> Before(k, x)
  }

  lemma {:induction false} FirstExists(keys: set<string>)
    requires keys != {}
    ensures exists k :: IsFirst(k, keys)
  {
    var a :| a in keys;
    if keys == {a} {
      assert IsFirst(a, keys);
    } else {
      FirstExists(keys - {a});
      var k :| IsFirst(k, keys - {a});
      BeforeTotal(a, k);
      assert forall x :: x in keys ==> x == a || x in keys - {a};
      if Before(a, k) {
        forall x | x in keys && x != a ensures Before(a, x) {
          if x != k { BeforeTransitive(a, k, x); }
        }
        assert IsFirst(a, keys);
      } else {
        assert IsFirst(k, keys);
      }
    }
  }

  lemma {:induction false} FirstUnique(keys: set<string>, a: string, b: string)
    requires IsFirst(a, keys) && IsFirst(b, keys)
    ensures a == b
  {
    if a != b {
      BeforeTransitive(a, b, a);
      BeforeIrreflexive(a);
    }
  }

  /** The first key in the order of std::map. */
  ghost function First(keys: set<string>): (k: string)
    requires keys != {}
    ensures IsFirst(k, keys)
  {
    FirstExists(keys);
    var k :| IsFirst(k, keys);
    k
  }

  /** The keys in that order. */
  ghost function InOrder(keys: set<string>): seq<string>
    decreases |keys|
  {
    if keys == {} then [] else [First(keys)] + InOrder(keys - {First(keys)})
  }

  /** Each key once, and earlier ones before later ones. */
  lemma {:induction false} InOrderSorted(keys: set<string>)
    ensures |InOrder(keys)| == |keys| && forall k :: k in InOrder(keys) <==> k in keys
    ensures forall i, j :: 0 <= i < j < |keys| ==> Before(InOrder(keys)[i], InOrder(keys)[j])
    decreases |keys|
  {
    if keys != {} {
      var k := First(keys);
      var ks, rest := InOrder(keys), InOrder(keys - {k});
      InOrderSorted(keys - {k});
      assert ks == [k] + rest && forall x :: x in ks <==> x == k || x in rest;
      forall i, j | 0 <= i < j < |keys| ensures Before(ks[i], ks[j]) {
        if i == 0 {
          assert ks[j] == rest[j - 1] && rest[j - 1] in rest;
        } else {
          assert ks[i] == rest[i - 1] && ks[j] == rest[j - 1];
        }
      }
    }
  }
}
