/** Lines of a Caddyfile as its structural parser sees them
    (internal/caddy/routes.go): literals, comments, quotes, braces. */
module RouteLex {
  import opened Wrappers
  import opened Lines
  import opened Text
  import opened TextLines

  // ---- logical lines ----

  predicate OddBackticks(line: string) {
    if line == "" then false else (line[0] == '`') != OddBackticks(line[1..])
  }

  function LogicalFrom(ls: seq<string>, open: bool, buf: seq<string>): seq<string>
    decreases |ls|
  {
    if ls == [] then if buf == [] then [] else [Unlines(buf)]
    else if open then
      if OddBackticks(ls[0]) then [Unlines(buf + [ls[0]])] + LogicalFrom(ls[1..], false, [])
      else LogicalFrom(ls[1..], true, buf + [ls[0]])
    else if OddBackticks(ls[0]) then LogicalFrom(ls[1..], true, [ls[0]])
    else [ls[0]] + LogicalFrom(ls[1..], false, [])
  }

  /** Physical lines merged while a backtick literal is open. */
  function LogicalLines(ls: seq<string>): seq<string> { LogicalFrom(ls, false, []) }

  lemma LogicalStep(l: string, rest: seq<string>, open: bool, buf: seq<string>)
    ensures LogicalFrom([l] + rest, open, buf) ==
      if open then
        (if OddBackticks(l) then [Unlines(buf + [l])] + LogicalFrom(rest, false, [])
          else LogicalFrom(rest, true, buf + [l]))
      else if OddBackticks(l) then LogicalFrom(rest, true, [l])
      else [l] + LogicalFrom(rest, false, [])
  {
    assert ([l] + rest)[1..] == rest;
  }

  lemma LogicalEnd(buf: seq<string>, open: bool)
    ensures LogicalFrom([], open, buf) == if buf == [] then [] else [Unlines(buf)]
  {
  }

  method MergeLogicalLines(ls: seq<string>) returns (out: seq<string>)
    ensures out == LogicalLines(ls)
  {
    hide OddBackticks, LogicalFrom, Unlines;
    out := [];
    var buf: seq<string> := [];
    var open := false;
    assert ls[0..] == ls;
    for i := 0 to |ls|
      invariant open <==> buf != []
      invariant LogicalLines(ls) == out + LogicalFrom(ls[i..], open, buf)
    {
      var l := ls[i];
      assert ls[i..] == [l] + ls[i + 1..];
      LogicalStep(l, ls[i + 1..], open, buf);
      if open {
        buf := buf + [l];
        if OddBackticks(l) {
          open := false;
          out := out + [Unlines(buf)];
          buf := [];
        }
        continue;
      }
      if OddBackticks(l) {
        buf := [l];
        open := true;
        continue;
      }
      out := out + [l];
    }
    LogicalEnd(buf, open);
    if buf != [] {
      out := out + [Unlines(buf)];
    }
  }

  lemma UnlinesCons(l: string, rest: seq<string>)
    ensures Unlines([l] + rest) == if rest == [] then l else l + "\n" + Unlines(rest)
  {
    if rest == [] {
      assert [l] + rest == [l];
    } else {
      JoinConcat([l], rest, '\n');
    }
  }

  lemma UnlinesOne(l: string)
    ensures Unlines([l]) == l
  {
    UnlinesCons(l, []);
    assert [l] + [] == [l];
  }

  /** A first line is what its text starts with. */
  lemma FirstLineStarts(h: string)
    ensures LinesOf(h)[0] <= h
  {
    hide LinesOf;
    LinesOfText(h);
    var ls := LinesOf(h);
    assert ls == [ls[0]] + ls[1..];
    UnlinesCons(ls[0], ls[1..]);
  }

  lemma {:induction false} LogicalFromEmpty(ls: seq<string>, open: bool, buf: seq<string>)
    requires open <==> buf != []
    ensures LogicalFrom(ls, open, buf) == [] <==> ls == [] && buf == []
    decreases |ls|
  {
    hide OddBackticks, Unlines;
    if ls != [] {
      LogicalFromEmpty(ls[1..], true, buf + [ls[0]]);
      LogicalFromEmpty(ls[1..], true, [ls[0]]);
    }
  }

  lemma {:induction false} LogicalFromRejoins(ls: seq<string>, open: bool, buf: seq<string>)
    requires open <==> buf != []
    ensures Unlines(LogicalFrom(ls, open, buf)) == Unlines(buf + ls)
    decreases |ls|, 0
  {
    hide OddBackticks, Unlines;
    if ls == [] {
      assert buf + ls == buf;
      UnlinesCons(Unlines(buf), []);
      assert [Unlines(buf)] + [] == [Unlines(buf)];
    } else {
      var l, rest := ls[0], ls[1..];
      if open && !OddBackticks(l) {
        LogicalFromRejoins(rest, true, buf + [l]);
        assert buf + [l] + rest == buf + ls;
      } else if !open && OddBackticks(l) {
        LogicalFromRejoins(rest, true, [l]);
        assert buf + ls == [l] + rest;
      } else {
        LogicalClosed(rest, if open then buf + [l] else [l]);
        assert (if open then buf + [l] else [l]) + rest == buf + ls;
        assert !open ==> Unlines([l]) == l by { UnlinesCons(l, []); assert [l] + [] == [l]; }
      }
    }
  }

  /** One merged line, then the rest. */
  lemma LogicalClosed(rest: seq<string>, group: seq<string>)
    requires group != []
    ensures Unlines([Unlines(group)] + LogicalFrom(rest, false, [])) == Unlines(group + rest)
    decreases |rest|, 1
  {
    hide OddBackticks, Unlines;
    LogicalFromRejoins(rest, false, []);
    LogicalFromEmpty(rest, false, []);
    UnlinesCons(Unlines(group), LogicalFrom(rest, false, []));
    assert [] + rest == rest;
    if rest == [] {
      assert group + rest == group;
    } else {
      UnlinesBoth(group, rest);
    }
  }

  lemma UnlinesBoth(a: seq<string>, b: seq<string>)
    requires a != [] && b != []
    ensures Unlines(a + b) == Unlines(a) + "\n" + Unlines(b)
  {
    JoinConcat(a, b, '\n');
  }

  /** Merging keeps every byte: the logical lines rejoin to their input. */
  lemma LogicalLinesRejoin(content: string)
    ensures Unlines(LogicalLines(LinesOf(content))) == content
  {
    LogicalFromRejoins(LinesOf(content), false, []);
    LinesOfText(content);
    assert [] + LinesOf(content) == LinesOf(content);
  }

  /** A text that merging leaves whole: one line with no literal left open, or
      a literal from the line that opens it to the line that closes it. */
  predicate Unit(l: string) {
    var ls := LinesOf(l);
    if |ls| == 1 then !OddBackticks(l)
    else OddBackticks(ls[0]) && OddBackticks(Last(ls)) && forall i :: 0 < i < |ls| - 1 ==> !OddBackticks(ls[i])
  }

  lemma {:induction false} MergesMiddle(mid: seq<string>, last: string, rest: seq<string>, buf: seq<string>)
    requires buf != [] && OddBackticks(last) && forall l :: l in mid ==> !OddBackticks(l)
    ensures LogicalFrom(mid + [last] + rest, true, buf) == [Unlines(buf + mid + [last])] + LogicalLines(rest)
    decreases |mid|
  {
    hide OddBackticks;
    if mid == [] {
      assert mid + [last] + rest == [last] + rest && buf + mid == buf;
      assert ([last] + rest)[1..] == rest;
    } else {
      assert (mid + [last] + rest)[1..] == mid[1..] + [last] + rest;
      assert mid[0] in mid && forall l :: l in mid[1..] ==> l in mid;
      MergesMiddle(mid[1..], last, rest, buf + [mid[0]]);
      assert buf + [mid[0]] + mid[1..] == buf + mid;
    }
  }

  /** A unit in front is the first logical line. */
  lemma UnitMerges(l: string, rest: seq<string>)
    requires Unit(l)
    ensures LogicalLines(LinesOf(l) + rest) == [l] + LogicalLines(rest)
  {
    hide OddBackticks;
    LinesOfText(l);
    var ls := LinesOf(l);
    if |ls| == 1 {
      UnlinesCons(ls[0], []);
      assert ls == [ls[0]] + [] && ls[0] == l;
      assert (ls + rest)[1..] == rest;
    } else {
      var mid := ls[1..|ls| - 1];
      assert ls == [ls[0]] + mid + [Last(ls)];
      assert ls + rest == [ls[0]] + (mid + [Last(ls)] + rest);
      assert (ls + rest)[1..] == mid + [Last(ls)] + rest;
      assert forall x :: x in mid ==> !OddBackticks(x);
      MergesMiddle(mid, Last(ls), rest, [ls[0]]);
    }
  }

  // ---- comments, quotes, braces ----

  predicate IsQuote(c: char) { c == '\'' || c == '"' || c == '`' }

  /** A line up to an unquoted '#'; None when a quote is left open. */
  function CodeFrom(s: string, quote: Option<char>): (r: Option<string>)
    ensures r.Some? ==> r.value <= s
  {
    if s == "" then if quote.Some? then None else Some("")
    else if quote.Some? then ConsCode(s[..1], CodeFrom(s[1..], if s[0] == quote.value then None else quote))
    else if IsQuote(s[0]) then ConsCode(s[..1], CodeFrom(s[1..], Some(s[0])))
    else if s[0] == '\\' then if |s| == 1 then Some(s) else ConsCode(s[..2], CodeFrom(s[2..], None))
    else if s[0] == '#' then Some("")
    else ConsCode(s[..1], CodeFrom(s[1..], None))
  }

  function ConsCode(c: string, rest: Option<string>): Option<string> {
    if rest.Some? then Some(c + rest.value) else None
  }

  function CodeLine(raw: string): (r: Option<string>)
    ensures r.Some? ==> r.value <= raw
  {
    CodeFrom(raw, None)
  }

  function BraceFrom(s: string, quote: Option<char>): int {
    if s == "" then 0
    else if quote.Some? then BraceFrom(s[1..], if s[0] == quote.value then None else quote)
    else if IsQuote(s[0]) then BraceFrom(s[1..], Some(s[0]))
    else if s[0] == '\\' then if |s| == 1 then 0 else BraceFrom(s[2..], None)
    else (if s[0] == '{' then 1 else if s[0] == '}' then -1 else 0) + BraceFrom(s[1..], None)
  }

  function BraceNet(code: string): int { BraceFrom(code, None) }

  /** The characters at the end of t that are not white space. */
  function LastWord(t: string): string {
    if t == "" || IsSpace(t[|t| - 1]) then "" else LastWord(t[..|t| - 1]) + [t[|t| - 1]]
  }

  /** The terminator, if the line's last field opens a heredoc. */
  function HeredocTerminator(code: string): Option<string> {
    var last := LastWord(TrimRight(code, IsSpace));
    if "<<" <= last && |last| != 2 then Some(last[2..]) else None
  }

  // ---- addresses ----

  function TrimNonEmpty(pieces: seq<string>): seq<string> {
    if pieces == [] then []
    else (if TrimSpace(pieces[0]) == "" then [] else [TrimSpace(pieces[0])]) + TrimNonEmpty(pieces[1..])
  }

  function SplitAddressLine(addr: string): seq<string> { TrimNonEmpty(Split(addr, ',')) }

  function CutAtBlank(a: string): string {
    if a == "" || a[0] == ' ' || a[0] == '\t' then "" else [a[0]] + CutAtBlank(a[1..])
  }

  function AddressHost(a: string): string {
    CutAtBlank(TrimPrefix(TrimPrefix(a, "https://"), "http://"))
  }

  function LeadingWhitespace(s: string): string {
    if s == "" || (s[0] != ' ' && s[0] != '\t') then "" else [s[0]] + LeadingWhitespace(s[1..])
  }

  lemma NothingMerges()
    ensures LogicalLines([]) == []
  {
  }
}
