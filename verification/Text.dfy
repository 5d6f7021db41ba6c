/** Go's string functions as the Caddyfile editor uses them, and what they do
    to the lines of a text. */
module Text {
  import opened Lines

  /** Unicode white space, as unicode.IsSpace has it. */
  predicate IsSpace(c: char) {
    || c == ' ' || ('\t' <= c <= '\r') || c == '\U{85}' || c == '\U{A0}' || c == '\U{1680}'
    || ('\U{2000}' <= c <= '\U{200A}') || c == '\U{2028}' || c == '\U{2029}' || c == '\U{202F}'
    || c == '\U{205F}' || c == '\U{3000}'
  }

  /** The code points with Unicode's White_Space property. */
  lemma SpacesAre(c: char)
    ensures var n := c as int;
      IsSpace(c) <==>
        || n in {9, 10, 11, 12, 13, 32, 133, 160, 5760, 8232, 8233, 8239, 8287, 12288}
        || 8192 <= n <= 8202
  {
    assert '\t' as int == 9 && '\r' as int == 13 && ' ' as int == 32;
  }

  predicate IsNewline(c: char) { c == '\n' }

  function TrimLeft(s: string, cut: char -> bool): (r: string)
    ensures |r| <= |s| && (r != "" ==> !cut(r[0]))
  {
    if s != "" && cut(s[0]) then TrimLeft(s[1..], cut) else s
  }

  function TrimRight(s: string, cut: char -> bool): (r: string)
    ensures r <= s && (r != "" ==> !cut(r[|r| - 1]))
  {
    if s != "" && cut(s[|s| - 1]) then TrimRight(s[..|s| - 1], cut) else s
  }

  function Trim(s: string, cut: char -> bool): string { TrimRight(TrimLeft(s, cut), cut) }

  function TrimSpace(s: string): string { Trim(s, IsSpace) }

  predicate HasSuffix(s: string, suffix: string) {
    |suffix| <= |s| && s[|s| - |suffix|..] == suffix
  }

  function TrimPrefix(s: string, prefix: string): string {
    if prefix <= s then s[|prefix|..] else s
  }

  function TrimSuffix(s: string, suffix: string): string {
    if HasSuffix(s, suffix) then s[..|s| - |suffix|] else s
  }

  // ---- trimming ----

  /** Trimming is determined by its result: what is left starts and ends uncut,
      and only cut characters went. */
  lemma {:induction false} TrimLeftOf(a: string, b: string, cut: char -> bool)
    requires forall c :: c in a ==> cut(c)
    requires b != "" ==> !cut(b[0])
    ensures TrimLeft(a + b, cut) == b
  {
    if a == "" {
      assert a + b == b;
    } else {
      assert (a + b)[1..] == a[1..] + b;
      TrimLeftOf(a[1..], b, cut);
    }
  }

  lemma {:induction false} TrimRightOf(b: string, c: string, cut: char -> bool)
    requires forall x :: x in c ==> cut(x)
    requires b != "" ==> !cut(b[|b| - 1])
    ensures TrimRight(b + c, cut) == b
  {
    if c == "" {
      assert b + c == b;
    } else {
      assert (b + c)[..|b + c| - 1] == b + c[..|c| - 1];
      TrimRightOf(b, c[..|c| - 1], cut);
    }
  }

  lemma TrimOf(a: string, b: string, c: string, cut: char -> bool)
    requires forall x :: x in a || x in c ==> cut(x)
    requires b != "" ==> !cut(b[0]) && !cut(b[|b| - 1])
    ensures Trim(a + b + c, cut) == b
  {
    if b != "" {
      assert a + b + c == a + (b + c);
      TrimLeftOf(a, b + c, cut);
      TrimRightOf(b, c, cut);
    } else {
      var all := a + b + c;
      assert all + "" == all;
      TrimLeftOf(all, "", cut);
    }
  }

  lemma {:induction false} LeftPart(s: string, cut: char -> bool) returns (a: string)
    ensures s == a + TrimLeft(s, cut) && forall x :: x in a ==> cut(x)
  {
    if s != "" && cut(s[0]) {
      var b := LeftPart(s[1..], cut);
      a := [s[0]] + b;
      assert s == [s[0]] + s[1..];
    } else {
      a := "";
    }
  }

  lemma {:induction false} RightPart(s: string, cut: char -> bool) returns (c: string)
    ensures s == TrimRight(s, cut) + c && forall x :: x in c ==> cut(x)
  {
    if s != "" && cut(s[|s| - 1]) {
      var d := RightPart(s[..|s| - 1], cut);
      c := d + [s[|s| - 1]];
      assert s == s[..|s| - 1] + [s[|s| - 1]];
    } else {
      c := "";
    }
  }

  /** What starts uncut keeps its start. */
  lemma TrimKeepsHead(s: string, cut: char -> bool)
    requires s != "" && !cut(s[0])
    ensures TrimLeft(s, cut) == s && Trim(s, cut) != "" && Trim(s, cut)[0] == s[0]
  {
    var c := RightPart(s, cut);
    var r := TrimRight(s, cut);
    assert s == r + c;
    assert c != "" ==> c[0] in c;
    assert r == "" ==> s == c;
  }

  /** Every string is its trimmed middle between two cut ends. */
  lemma TrimParts(s: string, cut: char -> bool) returns (a: string, c: string)
    ensures s == a + Trim(s, cut) + c
    ensures forall x :: x in a || x in c ==> cut(x)
  {
    a := LeftPart(s, cut);
    c := RightPart(TrimLeft(s, cut), cut);
    assert a + Trim(s, cut) + c == a + (Trim(s, cut) + c);
  }

  lemma TrimEnds(s: string, cut: char -> bool)
    ensures var t := Trim(s, cut); t != "" ==> !cut(t[0]) && !cut(t[|t| - 1])
  {
  }

  lemma TrimTrimmed(s: string, cut: char -> bool)
    requires s != "" ==> !cut(s[0]) && !cut(s[|s| - 1])
    ensures Trim(s, cut) == s
  {
  }

  lemma EmptyTrims()
    ensures TrimSpace("") == ""
  {
  }

  /** Cutting more at the ends first changes nothing. */
  lemma TrimAround(a: string, s: string, c: string, cut: char -> bool)
    requires forall x :: x in a || x in c ==> cut(x)
    ensures Trim(a + s + c, cut) == Trim(s, cut)
  {
    hide Trim;
    var a1, c1 := TrimParts(s, cut);
    var t := Trim(s, cut);
    TrimEnds(s, cut);
    assert a + s + c == (a + a1) + t + (c1 + c);
    TrimOf(a + a1, t, c1 + c, cut);
  }

  lemma TrimSpaceOfTrimLeft(s: string)
    ensures TrimSpace(TrimLeft(s, IsSpace)) == TrimSpace(s)
  {
    var a := LeftPart(s, IsSpace);
    var l := TrimLeft(s, IsSpace);
    assert s == a + l + "";
    TrimAround(a, l, "", IsSpace);
  }

  lemma TrimSpaceOfTrimRight(s: string)
    ensures TrimSpace(TrimRight(s, IsSpace)) == TrimSpace(s)
  {
    var c := RightPart(s, IsSpace);
    var r := TrimRight(s, IsSpace);
    assert s == "" + r + c;
    TrimAround("", r, c, IsSpace);
  }

  // ---- runs of newlines ----

  const TRIPLE := "\n\n\n"

  predicate Contains(s: string, sub: string) {
    sub <= s || (s != "" && Contains(s[1..], sub))
  }

  /** strings.ReplaceAll(s, "\n\n\n", "\n\n"). */
  function ReplaceTriples(s: string): (r: string)
    ensures |r| <= |s|
    ensures Contains(s, TRIPLE) ==> |r| < |s|
  {
    if s == "" then ""
    else if TRIPLE <= s then "\n\n" + ReplaceTriples(s[3..])
    else [s[0]] + ReplaceTriples(s[1..])
  }

  /** Keeps at most two newlines of each run; n is how many of the current run
      were kept so far. */
  function Squeeze(s: string, n: nat): string {
    if s == "" then ""
    else if s[0] != '\n' then [s[0]] + Squeeze(s[1..], 0)
    else if n >= 2 then Squeeze(s[1..], n)
    else ['\n'] + Squeeze(s[1..], n + 1)
  }

  function Collapse(s: string): string { Squeeze(s, 0) }

  lemma {:induction false} SqueezeSaturates(s: string, n: nat)
    requires n >= 2
    ensures Squeeze(s, n) == Squeeze(s, 2)
  {
    if s != "" && s[0] == '\n' {
      SqueezeSaturates(s[1..], n);
    }
  }

  lemma SqueezeTwo(t: string, n: nat)
    ensures Squeeze("\n\n" + t, n) == ["", "\n", "\n\n"][if n >= 2 then 0 else 2 - n] + Squeeze(t, 2)
  {
    var two := "\n\n" + t;
    assert two[1..] == "\n" + t && (two[1..])[1..] == t;
    SqueezeSaturates(t, n + 2);
    if n >= 1 {
      SqueezeSaturates(t, n + 1);
    }
    if n >= 2 {
      SqueezeSaturates(t, n);
    }
  }

  lemma SqueezeThree(t: string, n: nat)
    ensures Squeeze("\n\n\n" + t, n) == Squeeze("\n\n" + t, n)
  {
    var three := "\n\n\n" + t;
    assert three[1..] == "\n\n" + t;
    SqueezeTwo(t, n);
    SqueezeTwo(t, n + 1);
  }

  lemma {:induction false} SqueezeReplace(s: string, n: nat)
    ensures Squeeze(ReplaceTriples(s), n) == Squeeze(s, n)
    decreases |s|
  {
    if s == "" {
    } else if TRIPLE <= s {
      var t := s[3..];
      assert s == TRIPLE + t;
      SqueezeReplace(t, 2);
      SqueezeThree(t, n);
      SqueezeTwo(t, n);
      SqueezeTwo(ReplaceTriples(t), n);
    } else {
      SqueezeReplace(s[1..], 0);
      SqueezeReplace(s[1..], n);
      SqueezeReplace(s[1..], n + 1);
      assert ReplaceTriples(s)[1..] == ReplaceTriples(s[1..]);
    }
  }

  lemma {:induction false} SqueezeNoTriple(s: string, n: nat)
    requires !Contains(s, TRIPLE)
    requires n <= 2 && (n >= 1 ==> !("\n\n" <= s)) && (n == 2 ==> !("\n" <= s))
    ensures Squeeze(s, n) == s
  {
    if s != "" {
      if s[0] == '\n' {
        SqueezeNoTriple(s[1..], n + 1);
      } else {
        SqueezeNoTriple(s[1..], 0);
      }
      assert s == [s[0]] + s[1..];
    }
  }

  /** The loop that collapses runs of empty lines. */
  method CollapseTriples(s: string) returns (r: string)
    ensures r == Collapse(s)
    ensures !Contains(r, TRIPLE)
  {
    r := s;
    while Contains(r, TRIPLE)
      invariant Collapse(r) == Collapse(s)
      decreases |r|
    {
      SqueezeReplace(r, 0);
      r := ReplaceTriples(r);
    }
    SqueezeNoTriple(r, 0);
  }
}
