/** The marker-delimited regions of the Caddyfile (internal/caddy/caddy.go):
    recognizing, removing and extracting them. */
module Regions {
  import opened Wrappers
  import opened Lines
  import opened Text
  import opened TextLines

  const BEGIN_PREFIX := "# TEPLOY BEGIN "
  const END_PREFIX := "# TEPLOY END "

  predicate NameChar(c: char) { 'a' <= c <= 'z' || '0' <= c <= '9' }

  /** What the markerName pattern matches. */
  predicate ValidName(name: string) {
    && name != "" && NameChar(name[0]) && NameChar(name[|name| - 1])
    && forall c :: c in name ==> NameChar(c) || c == '-'
  }

  /** Lower-case letters, digits and, inside, hyphens. */
  lemma ValidNameIs(name: string)
    ensures ValidName(name) <==>
      && name != ""
      && forall i :: 0 <= i < |name| ==>
           'a' <= name[i] <= 'z' || '0' <= name[i] <= '9' || (name[i] == '-' && 0 < i < |name| - 1)
  {
    if ValidName(name) {
      assert forall i :: 0 <= i < |name| ==> name[i] in name;
    }
    if name != "" && forall i :: 0 <= i < |name| ==>
        'a' <= name[i] <= 'z' || '0' <= name[i] <= '9' || (name[i] == '-' && 0 < i < |name| - 1)
    {
      assert 'a' <= name[0] <= 'z' || '0' <= name[0] <= '9';
      assert 'a' <= name[|name| - 1] <= 'z' || '0' <= name[|name| - 1] <= '9';
    }
  }

  datatype Mark = Begin(app: string) | End(app: string) | Plain

  function MarkOf(line: string): Mark {
    var t := TrimSpace(TrimSuffix(line, "\r"));
    if BEGIN_PREFIX <= t && ValidName(TrimSpace(TrimPrefix(t, BEGIN_PREFIX)))
      then Begin(TrimSpace(TrimPrefix(t, BEGIN_PREFIX)))
    else if END_PREFIX <= t && ValidName(TrimSpace(TrimPrefix(t, END_PREFIX)))
      then End(TrimSpace(TrimPrefix(t, END_PREFIX)))
    else Plain
  }

  lemma ValidNameTrimmed(name: string)
    requires ValidName(name)
    ensures TrimSpace(name) == name && '\n' !in name
  {
    TrimTrimmed(name, IsSpace);
  }

  lemma RenderedMark(prefix: string, app: string)
    requires prefix == BEGIN_PREFIX || prefix == END_PREFIX
    requires ValidName(app)
    ensures MarkOf(prefix + app) == if prefix == BEGIN_PREFIX then Begin(app) else End(app)
    ensures '\n' !in prefix + app && prefix + app != ""
  {
    hide Trim, TrimSuffix;
    ValidNameTrimmed(app);
    RenderedTrimmed(prefix, app);
    var line := prefix + app;
    assert line[9] == prefix[9] && line[0] == '#';
    assert BEGIN_PREFIX[9] == 'B' && END_PREFIX[9] == 'E';
    assert BEGIN_PREFIX <= line ==> line[9] == BEGIN_PREFIX[9];
    assert TrimPrefix(line, prefix) == app;
  }

  lemma RenderedTrimmed(prefix: string, app: string)
    requires prefix == BEGIN_PREFIX || prefix == END_PREFIX
    requires ValidName(app)
    ensures TrimSpace(TrimSuffix(prefix + app, "\r")) == prefix + app
  {
    hide Trim;
    var line := prefix + app;
    assert line[0] == '#' && line[|line| - 1] == app[|app| - 1];
    TrimTrimmed(line, IsSpace);
    TrimSpaceOfTrimSuffix(line);
  }

  lemma TrimSpaceOfTrimSuffix(line: string)
    ensures TrimSpace(TrimSuffix(line, "\r")) == TrimSpace(line)
  {
    if HasSuffix(line, "\r") {
      var s := TrimSuffix(line, "\r");
      assert line == "" + s + "\r";
      TrimAround("", s, "\r", IsSpace);
    }
  }

  /** A marker is recognized by its trimmed text alone. */
  lemma MarkOfTrimmed(a: string, b: string)
    requires TrimSpace(a) == TrimSpace(b)
    ensures MarkOf(a) == MarkOf(b)
  {
    TrimSpaceOfTrimSuffix(a);
    TrimSpaceOfTrimSuffix(b);
  }

  lemma BlankIsPlain(l: string)
    requires Blank(l)
    ensures MarkOf(l) == Plain
  {
    TrimSpaceOfTrimSuffix(l);
  }

  lemma EmptyIsPlain()
    ensures MarkOf("") == Plain
  {
    BlankIsPlain("");
  }

  // ---- what a well-formed file holds ----

  /** A scan of the lines: the region it is in and its body so far, the regions
      that are closed, and the lines outside all of them. */
  datatype Scan = Malformed
    | Scan(inside: Option<string>, body: seq<string>, regions: map<string, seq<string>>, outside: seq<string>)

  const START := Scan(None, [], map[], [])

  function ScanStep(st: Scan, line: string): Scan {
    if st.Malformed? then Malformed
    else match MarkOf(line)
      case Begin(a) => if st.inside == None && a !in st.regions then st.(inside := Some(a), body := []) else Malformed
      case End(a) => if st.inside == Some(a) then Scan(None, [], st.regions[a := st.body], st.outside) else Malformed
      case Plain => if st.inside == None then st.(outside := st.outside + [line]) else st.(body := st.body + [line])
  }

  function ScanLines(st: Scan, ls: seq<string>): Scan
    decreases |ls|
  {
    if ls == [] then st else ScanLines(ScanStep(st, ls[0]), ls[1..])
  }

  /** Markers come in pairs, none nested, at most one pair an app. */
  predicate WellFormed(ls: seq<string>) {
    ScanLines(START, ls).Scan? && ScanLines(START, ls).inside == None
  }

  function RegionsOf(ls: seq<string>): map<string, seq<string>>
    requires WellFormed(ls)
  {
    ScanLines(START, ls).regions
  }

  function Outside(ls: seq<string>): seq<string>
    requires WellFormed(ls)
  {
    ScanLines(START, ls).outside
  }

  lemma {:induction false} ScanConcat(st: Scan, a: seq<string>, b: seq<string>)
    ensures ScanLines(st, a + b) == ScanLines(ScanLines(st, a), b)
    decreases |a|
  {
    if a == [] {
      assert a + b == b;
    } else {
      assert (a + b)[1..] == a[1..] + b;
      ScanConcat(ScanStep(st, a[0]), a[1..], b);
    }
  }

  lemma ScanOne(st: Scan, l: string)
    ensures ScanLines(st, [l]) == ScanStep(st, l)
  {
    assert ScanLines(ScanStep(st, l), [l][1..]) == ScanStep(st, l);
  }

  lemma {:induction false} MalformedStays(ls: seq<string>)
    ensures ScanLines(Malformed, ls) == Malformed
  {
    if ls != [] {
      MalformedStays(ls[1..]);
    }
  }

  /** Plain lines go to the open body or outside. */
  lemma {:induction false} ScanPlain(st: Scan, ls: seq<string>)
    requires st.Scan? && forall l :: l in ls ==> MarkOf(l) == Plain
    ensures ScanLines(st, ls) ==
      if st.inside == None then st.(outside := st.outside + ls) else st.(body := st.body + ls)
    decreases |ls|
  {
    hide MarkOf;
    if ls == [] {
      assert st.outside + ls == st.outside && st.body + ls == st.body;
    } else {
      ScanPlain(ScanStep(st, ls[0]), ls[1..]);
      assert st.outside + [ls[0]] + ls[1..] == st.outside + ls;
      assert st.body + [ls[0]] + ls[1..] == st.body + ls;
    }
  }

  // ---- removing a region ----

  datatype RemoveError = InvalidName | Nested(app: string) | Duplicate | UnmatchedEnd | Unterminated

  datatype Removal = Removal(kept: seq<string>, removed: bool)

  function KeepLine(line: string, rest: Result<Removal, RemoveError>): Result<Removal, RemoveError> {
    if rest.Ok? then Ok(Removal([line] + rest.value.kept, rest.value.removed)) else rest
  }

  function RemoveLines(ls: seq<string>, target: string, active: bool, removed: bool): Result<Removal, RemoveError> {
    if ls == [] then if active then Err(Unterminated) else Ok(Removal([], removed))
    else match MarkOf(ls[0])
      case Begin(a) =>
        if active then Err(Nested(a))
        else if a == target then if removed then Err(Duplicate) else RemoveLines(ls[1..], target, true, true)
        else KeepLine(ls[0], RemoveLines(ls[1..], target, active, removed))
      case End(a) =>
        if a == target then if active then RemoveLines(ls[1..], target, false, removed) else Err(UnmatchedEnd)
        else KeepLine(ls[0], RemoveLines(ls[1..], target, active, removed))
      case Plain =>
        if active then RemoveLines(ls[1..], target, active, removed)
        else KeepLine(ls[0], RemoveLines(ls[1..], target, active, removed))
  }

  /** Collapses empty lines and leaves one newline at the end, if anything. */
  function Tidied(text: string): string {
    var t := TrimRight(Collapse(text), IsNewline) + "\n";
    if t == "\n" then "" else t
  }

  function RemoveBlock(content: string, app: string): Result<string, RemoveError> {
    var target := TrimSpace(app);
    if !ValidName(target) then Err(InvalidName)
    else match RemoveLines(LinesOf(content), target, false, false)
      case Err(e) => Err(e)
      case Ok(r) => Ok(if r.removed then Tidied(Unlines(r.kept)) else Unlines(r.kept))
  }

  function KeepLines(ls: seq<string>, rest: Result<Removal, RemoveError>): Result<Removal, RemoveError> {
    if rest.Ok? then Ok(Removal(ls + rest.value.kept, rest.value.removed)) else rest
  }

  lemma KeepLinesSnoc(ls: seq<string>, l: string, rest: Result<Removal, RemoveError>)
    ensures KeepLines(ls, KeepLine(l, rest)) == KeepLines(ls + [l], rest)
  {
    if rest.Ok? {
      assert ls + ([l] + rest.value.kept) == ls + [l] + rest.value.kept;
    }
  }

  method RemoveCaddyfileBlock(content: string, app: string) returns (r: Result<string, RemoveError>)
    ensures r == RemoveBlock(content, app)
  {
    hide MarkOf, Split, Collapse, TrimRight;
    var target := TrimSpace(app);
    if !ValidName(target) {
      return Err(InvalidName);
    }
    var ls := LinesOf(content);
    var out: seq<string> := [];
    var active, removed := false, false;
    ghost var all := RemoveLines(ls, target, false, false);
    assert ls[0..] == ls;
    assert KeepLines([], all) == all by {
      assert all.Ok? ==> [] + all.value.kept == all.value.kept;
    }
    for i := 0 to |ls|
      invariant all == KeepLines(out, RemoveLines(ls[i..], target, active, removed))
    {
      assert ls[i..][1..] == ls[i + 1..];
      KeepLinesSnoc(out, ls[i], RemoveLines(ls[i + 1..], target, active, removed));
      match MarkOf(ls[i]) {
        case Begin(a) =>
          if active {
            return Err(Nested(a));
          }
          if a == target {
            if removed {
              return Err(Duplicate);
            }
            active, removed := true, true;
          } else {
            out := out + [ls[i]];
          }
        case End(a) =>
          if a == target && !active {
            return Err(UnmatchedEnd);
          }
          if a == target {
            active := false;
          } else {
            out := out + [ls[i]];
          }
        case Plain =>
          if !active {
            out := out + [ls[i]];
          }
      }
    }
    if active {
      return Err(Unterminated);
    }
    assert out + [] == out;
    var result := Unlines(out);
    if removed {
      result := CollapseTriples(result);
      result := TrimRight(result, IsNewline) + "\n";
      if result == "\n" {
        result := "";
      }
    }
    r := Ok(result);
  }

  /** A scan with one app's region left out. */
  function WithoutApp(st: Scan, app: string): Scan
    requires st.Scan?
  {
    if st.inside == None || st.inside == Some(app) then Scan(None, [], st.regions - {app}, st.outside)
    else st.(regions := st.regions - {app})
  }

  lemma {:induction false} RemoveScan(st: Scan, ls: seq<string>, app: string)
    requires st.Scan? && ScanLines(st, ls).Scan? && ScanLines(st, ls).inside == None
    ensures var active := st.inside == Some(app);
      var r := RemoveLines(ls, app, active, active || app in st.regions);
      && r.Ok? && r.value.removed == (app in ScanLines(st, ls).regions)
      && ScanLines(WithoutApp(st, app), r.value.kept) == WithoutApp(ScanLines(st, ls), app)
    decreases |ls|
  {
    hide MarkOf;
    if ls != [] {
      var next := ScanStep(st, ls[0]);
      if next.Malformed? {
        MalformedStays(ls[1..]);
        assert false;
      } else {
        RemoveScan(next, ls[1..], app);
        RemoveScanStep(st, ls[0], app);
        var active := next.inside == Some(app);
        var rest := RemoveLines(ls[1..], app, active, active || app in next.regions);
        if MarkOf(ls[0]) == Plain && st.inside == Some(app) {
        } else if MarkOf(ls[0]) != Plain && MarkOf(ls[0]).app == app {
        } else {
          assert ([ls[0]] + rest.value.kept)[1..] == rest.value.kept;
        }
      }
    }
  }

  lemma RemoveScanStep(st: Scan, l: string, app: string)
    requires st.Scan? && ScanStep(st, l).Scan?
    ensures WithoutApp(ScanStep(st, l), app) ==
      if (MarkOf(l) == Plain && st.inside == Some(app)) || (MarkOf(l) != Plain && MarkOf(l).app == app)
      then WithoutApp(st, app) else ScanStep(WithoutApp(st, app), l)
  {
    hide MarkOf;
  }

  /** The lines removal keeps, or the one empty line of the empty text. */
  function KeptLines(kept: seq<string>): seq<string> {
    if kept == [] then [""] else kept
  }
}
