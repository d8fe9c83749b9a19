/** Splitting text into words, and into words in which dots and hyphens between letters or digits are kept. */
module Tokenizer {

  /** The categories of code points that matter: letters and decimal digits, punctuation, separators and control
      characters, and all others. */
  datatype Category = Alnum | Punctuation | Separator | Rest

  type Categories = nat -> Category

  const DOT: nat := 0x2E
  const HYPHEN: nat := 0x2D

  predicate Boundary(cat: Categories, cp: nat) {
    cat(cp) == Separator || cat(cp) == Punctuation
  }

  /** A dot or hyphen behind a letter or digit, and with one next. */
  predicate Glue(cat: Categories, cp: nat, prev: Category, rest: seq<nat>) {
    (cp == DOT || cp == HYPHEN) && prev == Alnum && rest != [] && cat(rest[0]) == Alnum
  }

  predicate DomainBoundary(cat: Categories, cp: nat, prev: Category, rest: seq<nat>) {
    cat(cp) == Separator || (cat(cp) == Punctuation && !Glue(cat, cp, prev, rest))
  }

  function Closed(token: seq<nat>): seq<seq<nat>> {
    if token == [] then [] else [token]
  }

  /** The tokens of s behind the token being read. */
  function Tokens(cat: Categories, token: seq<nat>, s: seq<nat>): seq<seq<nat>>
    decreases s
  {
    if s == [] then Closed(token)
    else if Boundary(cat, s[0]) then Closed(token) + Tokens(cat, [], s[1..])
    else Tokens(cat, token + [s[0]], s[1..])
  }

  function DomainTokens(cat: Categories, token: seq<nat>, prev: Category, s: seq<nat>): seq<seq<nat>>
    decreases s
  {
    if s == [] then Closed(token)
    else if DomainBoundary(cat, s[0], prev, s[1..]) then Closed(token) + DomainTokens(cat, [], Rest, s[1..])
    else DomainTokens(cat, token + [s[0]], cat(s[0]), s[1..])
  }

  method Tokenize(cat: Categories, s: seq<nat>) returns (tokens: seq<seq<nat>>)
    ensures tokens == Tokens(cat, [], s)
  {
    tokens := [];
    var current, i := [], 0;
    while i < |s|
      invariant i <= |s|
      invariant tokens + Tokens(cat, current, s[i..]) == Tokens(cat, [], s)
    {
      assert s[i..][1..] == s[i + 1..];
      if Boundary(cat, s[i]) {
        if current != [] {
          tokens := tokens + [current];
          current := [];
        }
      } else {
        current := current + [s[i]];
      }
      i := i + 1;
    }
    if current != [] {
      tokens := tokens + [current];
    }
  }

  method TokenizeWithDomains(cat: Categories, s: seq<nat>) returns (tokens: seq<seq<nat>>)
    ensures tokens == DomainTokens(cat, [], Rest, s)
  {
    tokens := [];
    var current, prev, i := [], Rest, 0;
    while i < |s|
      invariant i <= |s|
      invariant tokens + DomainTokens(cat, current, prev, s[i..]) == DomainTokens(cat, [], Rest, s)
    {
      assert s[i..][1..] == s[i + 1..];
      var boundary := false;
      if cat(s[i]) == Separator {
        boundary := true;
      } else if cat(s[i]) == Punctuation {
        var glue := (s[i] == DOT || s[i] == HYPHEN) && i + 1 < |s| && prev == Alnum && cat(s[i + 1]) == Alnum;
        boundary := !glue;
      }
      if boundary {
        if current != [] {
          tokens := tokens + [current];
          current := [];
        }
        prev := Rest;
      } else {
        current := current + [s[i]];
        prev := cat(s[i]);
      }
      i := i + 1;
    }
    if current != [] {
      tokens := tokens + [current];
    }
  }

  // ---------- what the plain tokens are ----------

  /** Neither separators nor punctuation. */
  ghost predicate Free(cat: Categories, s: seq<nat>) {
    forall cp :: cp in s ==> cat(cp) != Separator && cat(cp) != Punctuation
  }

  function Joined(tokens: seq<seq<nat>>): seq<nat> {
    if tokens == [] then [] else tokens[0] + Joined(tokens[1..])
  }

  function Kept(cat: Categories, s: seq<nat>): seq<nat> {
    if s == [] then [] else (if cat(s[0]) in {Separator, Punctuation} then [] else [s[0]]) + Kept(cat, s[1..])
  }

  lemma {:induction false} TokensMeanFrom(cat: Categories, token: seq<nat>, s: seq<nat>)
    requires Free(cat, token)
    ensures forall t :: t in Tokens(cat, token, s) ==> t != [] && Free(cat, t)
    ensures Joined(Tokens(cat, token, s)) == token + Kept(cat, s)
    decreases s
  {
    if s != [] {
      var cp, rest := s[0], s[1..];
      if Boundary(cat, cp) {
        var tokens := Tokens(cat, [], rest);
        TokensMeanFrom(cat, [], rest);
        if token != [] {
          assert ([token] + tokens)[1..] == tokens;
        } else {
          assert Closed(token) + tokens == tokens;
        }
      } else {
        TokensMeanFrom(cat, token + [cp], rest);
      }
    } else if token != [] {
      assert [token][1..] == [];
    }
  }

  /** No token is empty or holds a boundary, and together they are the text without its boundaries. */
  lemma TokensMean(cat: Categories, s: seq<nat>)
    ensures forall t :: t in Tokens(cat, [], s) ==> t != [] && Free(cat, t)
    ensures Joined(Tokens(cat, [], s)) == Kept(cat, s)
  {
    TokensMeanFrom(cat, [], s);
  }

  lemma {:induction false} TokensWhole(cat: Categories, token: seq<nat>, s: seq<nat>)
    requires Free(cat, s)
    ensures Tokens(cat, token, s) == Closed(token + s)
    decreases s
  {
    if s == [] {
      assert token + s == token;
    } else {
      assert s[0] in s;
      TokensWhole(cat, token + [s[0]], s[1..]);
      assert token + [s[0]] + s[1..] == token + s;
    }
  }

  /** A boundary parts the text, and a text without one is one token. */
  lemma TokensParted(cat: Categories, a: seq<nat>, cp: nat, b: seq<nat>)
    requires (cat(cp) == Separator || cat(cp) == Punctuation) && Free(cat, a)
    ensures Tokens(cat, [], a + [cp] + b) == (if a == [] then [] else [a]) + Tokens(cat, [], b)
    ensures Tokens(cat, [], a) == if a == [] then [] else [a]
  {
    TokensSplit(cat, [], a, cp, b);
    TokensWhole(cat, [], a);
    assert [] + a == a;
  }

  // ---------- the two agree ----------

  /** Each token tokenized in turn. */
  function Again(cat: Categories, tokens: seq<seq<nat>>): seq<seq<nat>> {
    if tokens == [] then [] else Tokens(cat, [], tokens[0]) + Again(cat, tokens[1..])
  }

  lemma {:induction false} TokensSplit(cat: Categories, token: seq<nat>, a: seq<nat>, cp: nat, b: seq<nat>)
    requires Boundary(cat, cp)
    ensures Tokens(cat, token, a + [cp] + b) == Tokens(cat, token, a) + Tokens(cat, [], b)
    decreases a
  {
    var s := a + [cp] + b;
    if a == [] {
      assert s[1..] == b;
    } else {
      assert s[1..] == a[1..] + [cp] + b;
      if Boundary(cat, a[0]) {
        TokensSplit(cat, [], a[1..], cp, b);
      } else {
        TokensSplit(cat, token + [a[0]], a[1..], cp, b);
      }
    }
  }

  lemma AgainAfter(cat: Categories, token: seq<nat>, tokens: seq<seq<nat>>)
    ensures Again(cat, Closed(token) + tokens) == Tokens(cat, [], token) + Again(cat, tokens)
  {
    if token == [] {
      assert Closed(token) + tokens == tokens;
    } else {
      assert ([token] + tokens)[1..] == tokens;
    }
  }

  lemma {:induction false} AgainIsTokens(cat: Categories, token: seq<nat>, prev: Category, s: seq<nat>)
    ensures Again(cat, DomainTokens(cat, token, prev, s)) == Tokens(cat, [], token + s)
    decreases s
  {
    if s == [] {
      assert token + s == token;
    } else {
      assert token + s == token + [s[0]] + s[1..];
      if DomainBoundary(cat, s[0], prev, s[1..]) {
        AgainIsTokens(cat, [], Rest, s[1..]);
        assert [] + s[1..] == s[1..];
        AgainAfter(cat, token, DomainTokens(cat, [], Rest, s[1..]));
        TokensSplit(cat, [], token, s[0], s[1..]);
      } else {
        AgainIsTokens(cat, token + [s[0]], cat(s[0]), s[1..]);
      }
    }
  }

  /** Splitting the domain tokens further gives the plain tokens. */
  lemma DomainsRefine(cat: Categories, s: seq<nat>)
    ensures Again(cat, DomainTokens(cat, [], Rest, s)) == Tokens(cat, [], s)
  {
    AgainIsTokens(cat, [], Rest, s);
    assert [] + s == s;
  }

  // ---------- what a domain token looks like ----------

  /** No separators, and punctuation only as dots and hyphens between two letters or digits; the last code point may
      still wait for the one behind it. */
  ghost predicate WellGlued(cat: Categories, t: seq<nat>, next: seq<nat>) {
    forall i :: 0 <= i < |t| ==> GluedAt(cat, t, i, next)
  }

  ghost predicate GluedAt(cat: Categories, t: seq<nat>, i: nat, next: seq<nat>)
    requires i < |t|
  {
    && cat(t[i]) != Separator
    && (cat(t[i]) == Punctuation ==>
      && (t[i] == 0x2E || t[i] == 0x2D) && i > 0 && cat(t[i - 1]) == Alnum
      && (if i + 1 < |t| then cat(t[i + 1]) == Alnum else next != [] && cat(next[0]) == Alnum))
  }

  lemma {:induction false} DomainTokensGlued(cat: Categories, token: seq<nat>, prev: Category, s: seq<nat>)
    requires WellGlued(cat, token, s) && prev == if token == [] then Rest else cat(token[|token| - 1])
    ensures forall t :: t in DomainTokens(cat, token, prev, s) ==> t != [] && WellGlued(cat, t, [])
    decreases s
  {
    if s != [] {
      var cp, rest := s[0], s[1..];
      if DomainBoundary(cat, cp, prev, rest) {
        forall i | 0 <= i < |token| ensures GluedAt(cat, token, i, []) {
          assert GluedAt(cat, token, i, s);
        }
        DomainTokensGlued(cat, [], Rest, rest);
      } else {
        var longer := token + [cp];
        forall i | 0 <= i < |longer| ensures GluedAt(cat, longer, i, rest) {
          if i < |token| { assert GluedAt(cat, token, i, s); }
        }
        DomainTokensGlued(cat, token + [cp], cat(cp), rest);
      }
    }
  }

  /** No domain token is empty, and the punctuation in it stands between two letters or digits. */
  lemma DomainsGlued(cat: Categories, s: seq<nat>)
    ensures forall t :: t in DomainTokens(cat, [], Rest, s) ==> t != [] && WellGlued(cat, t, [])
  {
    DomainTokensGlued(cat, [], Rest, s);
  }

  lemma {:induction false} DomainTokensWhole(cat: Categories, token: seq<nat>, prev: Category, s: seq<nat>)
    requires WellGlued(cat, token + s, []) && prev == if token == [] then Rest else cat(token[|token| - 1])
    ensures DomainTokens(cat, token, prev, s) == if token + s == [] then [] else [token + s]
    decreases s
  {
    if s == [] {
      assert token + s == token;
    } else {
      assert GluedAt(cat, token + s, |token|, []);
      assert (token + s)[|token|] == s[0];
      assert |s| > 1 ==> (token + s)[|token| + 1] == s[1];
      assert token + [s[0]] + s[1..] == token + s;
      DomainTokensWhole(cat, token + [s[0]], cat(s[0]), s[1..]);
    }
  }

  /** No separator, and if punctuation then a dot or hyphen that stands between two letters or digits. */
  ghost predicate KeptAt(cat: Categories, s: seq<nat>, i: nat)
    requires i < |s|
  {
    && cat(s[i]) != Separator
    && (cat(s[i]) == Punctuation ==>
      (s[i] == 0x2E || s[i] == 0x2D) && 0 < i < |s| - 1 && cat(s[i - 1]) == Alnum == cat(s[i + 1]))
  }

  /** A text is kept as one token exactly if all of it may be kept. */
  lemma DomainsWhole(cat: Categories, s: seq<nat>)
    ensures DomainTokens(cat, [], Rest, s) == [s] <==> s != [] && forall i :: 0 <= i < |s| ==> KeptAt(cat, s, i)
  {
    assert forall i :: 0 <= i < |s| ==> (KeptAt(cat, s, i) <==> GluedAt(cat, s, i, []));
    if DomainTokens(cat, [], Rest, s) == [s] {
      DomainsGlued(cat, s);
      assert s in [s];
    } else if WellGlued(cat, s, []) {
      assert [] + s == s;
      DomainTokensWhole(cat, [], Rest, s);
    }
  }

  lemma {:induction false} DomainTokensSplit(
    cat: Categories, token: seq<nat>, prev: Category, a: seq<nat>, cp: nat, b: seq<nat>)
    requires cat(cp) == Separator || cat(cp) == Punctuation
    requires cat(cp) == Punctuation && (cp == 0x2E || cp == 0x2D) && b != [] && cat(b[0]) == Alnum ==>
      (if a == [] then prev else cat(a[|a| - 1])) != Alnum
    ensures DomainTokens(cat, token, prev, a + [cp] + b)
         == DomainTokens(cat, token, prev, a) + DomainTokens(cat, [], Rest, b)
    decreases a
  {
    var s := a + [cp] + b;
    if a == [] {
      assert s[1..] == b;
    } else {
      assert s[1..] == a[1..] + [cp] + b;
      assert DomainBoundary(cat, s[0], prev, s[1..]) <==> DomainBoundary(cat, a[0], prev, a[1..]);
      if DomainBoundary(cat, a[0], prev, a[1..]) {
        DomainTokensSplit(cat, [], Rest, a[1..], cp, b);
      } else {
        DomainTokensSplit(cat, token + [a[0]], cat(a[0]), a[1..], cp, b);
      }
    }
  }

  /** A separator parts any text, and so does punctuation other than a dot or hyphen between two letters or digits. */
  lemma DomainsParted(cat: Categories, a: seq<nat>, cp: nat, b: seq<nat>)
    requires || cat(cp) == Separator
             || (cat(cp) == Punctuation
                 && !((cp == 0x2E || cp == 0x2D) && a != [] && b != [] && cat(a[|a| - 1]) == Alnum == cat(b[0])))
    ensures DomainTokens(cat, [], Rest, a + [cp] + b)
         == DomainTokens(cat, [], Rest, a) + DomainTokens(cat, [], Rest, b)
  {
    DomainTokensSplit(cat, [], Rest, a, cp, b);
  }
}
