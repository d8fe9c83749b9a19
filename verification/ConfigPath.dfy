/** Paths into a configuration tree: a list of sections and its joined text. */
module ConfigPaths {
  import opened Wrappers

  /** The separator between sections. */
  const SEPARATOR := '.'

  const INT_MAX := 0x7FFF_FFFF
  const SIZE_RANGE := 0x1_0000_0000_0000_0000

  function Join(parts: seq<string>): string {
    if parts == [] then ""
    else if |parts| == 1 then parts[0]
    else parts[0] + [SEPARATOR] + Join(parts[1..])
  }

  function Split(s: string): (parts: seq<string>)
    ensures parts != []
  {
    if s == [] then [""]
    else
      var rest := Split(s[1..]);
      if s[0] == SEPARATOR then [""] + rest else [[s[0]] + rest[0]] + rest[1..]
  }

  /** The sections of a path given as text: the empty text has none. */
  function Sections(text: string): seq<string> {
    if text == "" then [] else Split(text)
  }

  ghost predicate Separate(parts: seq<string>) {
    forall i :: 0 <= i < |parts| ==> SEPARATOR !in parts[i]
  }

  lemma JoinLonger(c: char, parts: seq<string>)
    requires parts != []
    ensures Join([[c] + parts[0]] + parts[1..]) == [c] + Join(parts)
  {
    var longer := [[c] + parts[0]] + parts[1..];
    assert longer[1..] == parts[1..];
    if |parts| > 1 {
      assert [c] + parts[0] + [SEPARATOR] + Join(parts[1..]) == [c] + (parts[0] + [SEPARATOR] + Join(parts[1..]));
    }
  }

  lemma {:induction false} JoinSplit(s: string)
    ensures Join(Split(s)) == s
    ensures Separate(Split(s))
  {
    if s != [] {
      JoinSplit(s[1..]);
      var rest := Split(s[1..]);
      assert s == [s[0]] + s[1..];
      if s[0] == SEPARATOR {
        assert ([""] + rest)[1..] == rest;
      } else {
        JoinLonger(s[0], rest);
      }
    }
  }

  lemma {:induction false} SplitPiece(piece: string, rest: string)
    requires SEPARATOR !in piece
    ensures Split(piece) == [piece]
    ensures Split(piece + [SEPARATOR] + rest) == [piece] + Split(rest)
  {
    if piece == "" {
      assert piece + [SEPARATOR] + rest == [SEPARATOR] + rest;
    } else {
      SplitPiece(piece[1..], rest);
      assert (piece + [SEPARATOR] + rest)[1..] == piece[1..] + [SEPARATOR] + rest;
      assert piece == [piece[0]] + piece[1..];
    }
  }

  lemma {:induction false} SplitJoin(parts: seq<string>)
    requires parts != [] && Separate(parts)
    ensures Split(Join(parts)) == parts
  {
    if |parts| == 1 {
      SplitPiece(parts[0], "");
    } else {
      SplitJoin(parts[1..]);
      SplitPiece(parts[0], Join(parts[1..]));
    }
  }

  /** The text of a path is the texts of its parts, with a dot between them. */
  lemma {:induction false} JoinAppend(p: seq<string>, q: seq<string>)
    ensures p != [] && q != [] ==> Join(p + q) == Join(p) + "." + Join(q)
    ensures |p| == 1 ==> Join(p) == p[0]
    ensures p == [] ==> Join(p) == ""
  {
    if |p| == 1 {
      assert (p + q)[1..] == q;
    } else if p != [] && q != [] {
      JoinAppend(p[1..], q);
      assert (p + q)[1..] == p[1..] + q;
    }
  }

  /** A path is read back from its text exactly when no section holds the separator and it is not one empty section. */
  lemma {:induction false} TextRoundTrip(parts: seq<string>)
    ensures Sections(Join(parts)) == parts <==> parts != [""] && forall i :: 0 <= i < |parts| ==> '.' !in parts[i]
  {
    if parts != [] {
      if Separate(parts) { SplitJoin(parts); }
      JoinSplit(Join(parts));
    }
  }

  // ---------- sections as numbers ----------

  predicate IsDigit(c: char) {
    '0' <= c <= '9'
  }

  predicate IsSpace(c: char) {
    c == ' ' || '\t' <= c <= '\r'
  }

  function SkipSpace(s: string): string {
    if s != [] && IsSpace(s[0]) then SkipSpace(s[1..]) else s
  }

  /** The value of the leading digits after those already read. */
  function Digits(s: string, value: nat): nat {
    if s != [] && IsDigit(s[0]) then Digits(s[1..], value * 10 + (s[0] as int - '0' as int)) else value
  }

  /** A leading decimal number of type int; what follows it is ignored. */
  function ParseInt(s: string): Option<int> {
    var t := SkipSpace(s);
    var minus := t != [] && t[0] == '-';
    var u := if t != [] && (t[0] == '-' || t[0] == '+') then t[1..] else t;
    if u == [] || !IsDigit(u[0]) then None
    else
      var n: int := Digits(u, 0);
      if minus then (if n <= INT_MAX + 1 then Some(-n) else None)
      else if n <= INT_MAX then Some(n)
      else None
  }

  /** A section as an array index: a negative number wraps around. */
  function NumberAt(section: string): Option<nat> {
    match ParseInt(section)
    case None => None
    case Some(n) => Some(if n < 0 then n + SIZE_RANGE else n)
  }

  function NumberText(n: nat): (s: string)
    ensures s != []
  {
    if n < 10 then [n as char + '0'] else NumberText(n / 10) + [(n % 10) as char + '0']
  }

  lemma {:induction false} DigitsAppend(s: string, last: char, value: nat)
    requires IsDigit(last) && forall c :: c in s ==> IsDigit(c)
    ensures Digits(s + [last], value) == Digits(s, value) * 10 + (last as int - '0' as int)
    decreases s
  {
    if s != [] {
      assert (s + [last])[1..] == s[1..] + [last] && s[0] in s;
      DigitsAppend(s[1..], last, value * 10 + (s[0] as int - '0' as int));
    }
  }

  lemma {:induction false} DigitsOfText(n: nat)
    ensures forall c :: c in NumberText(n) ==> IsDigit(c)
    ensures Digits(NumberText(n), 0) == n
  {
    if n >= 10 {
      DigitsOfText(n / 10);
      DigitsAppend(NumberText(n / 10), (n % 10) as char + '0', 0);
    } else {
      assert Digits([n as char + '0'], 0) == Digits([], n);
    }
  }

  /** An index is read back from its text exactly when it fits an int. */
  lemma {:induction false} NumberRoundTrip(n: nat)
    ensures NumberAt(NumberText(n)) == if n <= 0x7FFF_FFFF then Some(n) else None
    ensures '.' !in NumberText(n)
  {
    DigitsOfText(n);
    var s := NumberText(n);
    assert s[0] in s;
    assert SkipSpace(s) == s;
  }

  lemma {:induction false} DigitsStop(s: string, rest: string, value: nat)
    requires forall c :: c in s ==> IsDigit(c)
    requires rest == "" || !IsDigit(rest[0])
    ensures Digits(s + rest, value) == Digits(s, value)
    decreases s
  {
    if s == "" {
      assert s + rest == rest;
    } else {
      assert (s + rest)[1..] == s[1..] + rest && s[0] in s;
      DigitsStop(s[1..], rest, value * 10 + (s[0] as int - '0' as int));
    }
  }

  /** Digits are read as a decimal number, the last one counting least. */
  lemma NumberDigits(s: string, c: char)
    requires '0' <= c <= '9' && forall x :: x in s ==> '0' <= x <= '9'
    ensures s == "" ==> NumberAt(s + [c]) == Some(c as nat - '0' as nat)
    ensures s != "" && NumberAt(s).Some? ==> var n := 10 * NumberAt(s).value + (c as nat - '0' as nat);
      NumberAt(s + [c]) == if n <= 0x7FFF_FFFF then Some(n) else None
    ensures s != "" && NumberAt(s).None? ==> NumberAt(s + [c]).None?
  {
    DigitsAppend(s, c, 0);
    var t := s + [c];
    assert t[0] == (if s == "" then c else s[0]) && (s != "" ==> s[0] in s);
    assert SkipSpace(t) == t && (s != "" ==> SkipSpace(s) == s);
  }

  lemma {:induction false} SpaceSkipped(blanks: string, s: string)
    requires forall c :: c in blanks ==> c == ' ' || c in "\t\n" || 0x0B as char <= c <= '\r'
    ensures SkipSpace(blanks + s) == SkipSpace(s)
  {
    if blanks == "" {
      assert blanks + s == s;
    } else {
      assert (blanks + s)[1..] == blanks[1..] + s && blanks[0] in blanks;
      SpaceSkipped(blanks[1..], s);
    }
  }

  lemma SignRead(sign: string, n: nat, rest: string)
    requires sign == "" || sign == "+" || sign == "-"
    requires rest == "" || !IsDigit(rest[0])
    ensures var u := sign + (NumberText(n) + rest);
      && SkipSpace(u) == u
      && ParseInt(u) == if n > 0x7FFF_FFFF + (if sign == "-" then 1 else 0) then None
                        else Some(if sign == "-" then 0 - n else n)
  {
    var s := NumberText(n);
    var u := sign + (s + rest);
    DigitsOfText(n);
    DigitsStop(s, rest, 0);
    assert s[0] in s && (s + rest)[0] == s[0];
    if sign == "" {
      assert u == s + rest;
    } else {
      assert u[1..] == s + rest && u[0] == sign[0];
    }
  }

  /** An index is a number behind blanks and an optional sign, whatever follows its digits, if it fits an int; one with
      a minus counts back from 2 to the 64. */
  lemma NumberRead(blanks: string, sign: string, n: nat, rest: string)
    requires forall c :: c in blanks ==> c == ' ' || c in "\t\n" || 0x0B as char <= c <= '\r'
    requires sign == "" || sign == "+" || sign == "-"
    requires rest == "" || !('0' <= rest[0] <= '9')
    ensures NumberAt(blanks + sign + NumberText(n) + rest)
         == if n > 0x7FFF_FFFF + (if sign == "-" then 1 else 0) then None
            else if sign == "-" && n > 0 then Some(0x1_0000_0000_0000_0000 - n)
            else Some(n)
  {
    var u := sign + (NumberText(n) + rest);
    SignRead(sign, n, rest);
    SpaceSkipped(blanks, u);
    assert blanks + sign + NumberText(n) + rest == blanks + u;
    assert ParseInt(blanks + u) == ParseInt(u);
  }

  lemma {:induction false} NumberTextUnique(m: nat, n: nat)
    requires NumberText(m) == NumberText(n)
    ensures m == n
  {
    DigitsOfText(m);
    DigitsOfText(n);
  }

  // ---------- the path object ----------

  class ConfigTreePath {
    var path: string
    var parts: seq<string>

    ghost predicate Valid()
      reads this
    {
      path == Join(parts)
    }

    constructor FromText(text: string)
      ensures Valid() && path == text && parts == Sections(text)
    {
      path := text;
      parts := [];
      new;
      UpdateState();
    }

    constructor FromParts(sections: seq<string>)
      ensures Valid() && parts == sections
    {
      path := "";
      parts := sections;
      new;
      UpdateState();
    }

    method UpdateState()
      modifies this
      ensures Valid()
      ensures old(parts) != [] ==> parts == old(parts)
      ensures old(parts) == [] ==> path == old(path) && parts == Sections(path)
    {
      if parts == [] {
        if path != "" {
          parts := Split(path);
          JoinSplit(path);
        }
      } else {
        path := Join(parts);
      }
    }

    method Append(text: string)
      requires Valid()
      modifies this
      ensures Valid() && parts == old(parts) + Sections(text)
    {
      if text != "" {
        parts := parts + Split(text);
        UpdateState();
      }
    }

    method Prepend(text: string)
      requires Valid()
      modifies this
      ensures Valid() && parts == Sections(text) + old(parts)
    {
      if text != "" {
        parts := Split(text) + parts;
        UpdateState();
      }
    }

    method Reset()
      modifies this
      ensures Valid() && parts == [] && path == ""
    {
      parts := [];
      path := "";
    }

    method DropBack(count: nat)
      requires Valid()
      modifies this
      ensures Valid()
      ensures parts == if count < |old(parts)| then old(parts)[..|old(parts)| - count] else []
    {
      if count == 0 {
        assert parts[..|parts|] == parts;
        return;
      }
      if count >= |parts| {
        Reset();
        return;
      }
      parts := parts[..|parts| - count];
      UpdateState();
    }

    method DropFront(count: nat)
      requires Valid()
      modifies this
      ensures Valid()
      ensures parts == if count < |old(parts)| then old(parts)[count..] else []
    {
      if count == 0 { return; }
      if count >= |parts| {
        Reset();
        return;
      }
      parts := parts[count..];
      UpdateState();
    }
  }
}
