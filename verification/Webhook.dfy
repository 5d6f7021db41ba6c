/** The webhook fragment inside an app's site block (internal/caddy/webhook.go). */
module Webhook {
  import opened Wrappers
  import opened Lines
  import opened Text
  import opened TextLines
  import opened Regions
  import opened RegionLaws
  import opened RegionEdit
  import opened RouteLex
  import opened Render

  datatype WebhookConfig = WebhookConfig(path: string, port: nat)

  const HOOK_BEGIN := "# TEPLOY WEBHOOK BEGIN "
  const HOOK_END := "# TEPLOY WEBHOOK END "
  const HOOK_PROXY := "\t\treverse_proxy " + "host.docker.internal:"

  function Digits(n: nat): string {
    if n < 10 then [('0' as int + n) as char] else Digits(n / 10) + [('0' as int + n % 10) as char]
  }

  /** The fragment's lines. */
  function FragmentLines(app: string, cfg: WebhookConfig): seq<string> {
    ["\t" + HOOK_BEGIN + app,
     "\t@teploy_hook_" + app + " {",
     "\t\tmethod POST",
     "\t\tpath " + cfg.path,
     "\t}",
     "\thandle @teploy_hook_" + app + " {",
     HOOK_PROXY + Digits(cfg.port),
     "\t}",
     "\t" + HOOK_END + app]
  }

  // ---- strip ----

  predicate OpensHook(line: string, app: string) { TrimSpace(line) == TrimSpace("\t" + HOOK_BEGIN + app) }
  predicate ClosesHook(line: string, app: string) { TrimSpace(line) == TrimSpace("\t" + HOOK_END + app) }

  function StripLines(ls: seq<string>, app: string, skipping: bool): seq<string> {
    if ls == [] then []
    else if OpensHook(ls[0], app) then StripLines(ls[1..], app, true)
    else if skipping then StripLines(ls[1..], app, !ClosesHook(ls[0], app))
    else [ls[0]] + StripLines(ls[1..], app, false)
  }

  function Strip(block: string, app: string): string { Collapse(Unlines(StripLines(LinesOf(block), app, false))) }

  method StripWebhookFragment(block: string, app: string) returns (r: string)
    ensures r == Strip(block, app)
  {
    hide OpensHook, ClosesHook, LinesOf, Collapse;
    var ls := LinesOf(block);
    var out: seq<string> := [];
    var skipping := false;
    assert ls[0..] == ls;
    for i := 0 to |ls|
      invariant StripLines(ls, app, false) == out + StripLines(ls[i..], app, skipping)
    {
      assert ls[i..][1..] == ls[i + 1..];
      if OpensHook(ls[i], app) {
        skipping := true;
        continue;
      }
      if skipping {
        if ClosesHook(ls[i], app) {
          skipping := false;
        }
        continue;
      }
      out := out + [ls[i]];
    }
    assert out + [] == out;
    r := CollapseTriples(Unlines(out));
  }

  // ---- inject ----

  /** The line that opens the site block, if the first one that says anything does. */
  function OpeningLine(ls: seq<string>): Option<nat> {
    if ls == [] then None
    else
      var t := TrimSpace(ls[0]);
      if t == "" || t[0] == '#' then
        match OpeningLine(ls[1..])
        case None => None
        case Some(i) => Some(i + 1)
      else if HasSuffix(t, "{") && BraceNet(ls[0]) > 0 then Some(0)
      else None
  }

  lemma {:induction false} OpeningInside(ls: seq<string>)
    requires OpeningLine(ls).Some?
    ensures OpeningLine(ls).value < |ls|
  {
    hide TrimSpace, BraceNet;
    if ls != [] && OpeningLine(ls[1..]).Some? {
      OpeningInside(ls[1..]);
    }
  }

  function InjectLines(ls: seq<string>, app: string, cfg: WebhookConfig): Option<seq<string>> {
    match OpeningLine(ls)
    case None => None
    case Some(i) => if i < |ls| then Some(ls[..i + 1] + FragmentLines(app, cfg) + ls[i + 1..]) else None
  }

  /** The fragment goes in right after the opening line. */
  function Inject(block: string, app: string, cfg: WebhookConfig): Result<string, EditError> {
    match InjectLines(LinesOf(block), app, cfg)
    case None => Err(NoSiteBlock)
    case Some(ls) => Ok(Unlines(ls))
  }

  // ---- strip undoes inject ----

  /** No line of the block opens a fragment. */
  predicate HookFree(ls: seq<string>, app: string) { forall l :: l in ls ==> !OpensHook(l, app) }

  lemma HookTrims(app: string)
    requires ValidName(app)
    ensures TrimSpace("\t" + HOOK_BEGIN + app) == HOOK_BEGIN + app && TrimSpace("\t" + HOOK_END + app) == HOOK_END + app
  {
    hide ValidName;
    TrimIndented(HOOK_BEGIN, app);
    TrimIndented(HOOK_END, app);
  }

  lemma TrimIndented(prefix: string, app: string)
    requires ValidName(app) && prefix != "" && prefix[0] == '#'
    ensures TrimSpace("\t" + prefix + app) == prefix + app
  {
    var s := prefix + app;
    assert s[|s| - 1] == app[|app| - 1];
    assert "\t" + prefix + app == "\t" + s + "";
    TrimOf("\t", s, "", IsSpace);
  }

  /** Only the last line of a fragment closes it, only the first opens one. */
  lemma FragmentMarks(app: string, cfg: WebhookConfig)
    requires ValidName(app) && cfg.path != ""
    ensures var f := FragmentLines(app, cfg);
      && OpensHook(f[0], app) && ClosesHook(f[8], app) && !OpensHook(f[8], app)
      && forall i :: 1 <= i < 8 ==> !OpensHook(f[i], app) && !ClosesHook(f[i], app)
  {
    hide ValidName, TrimSpace, Digits;
    HookTrims(app);
    var f := FragmentLines(app, cfg);
    assert HOOK_BEGIN[0] == '#' && HOOK_END[0] == '#' && HOOK_BEGIN[17] == 'B' && HOOK_END[17] == 'E';
    assert (HOOK_BEGIN + app)[17] == 'B' && (HOOK_END + app)[17] == 'E';
    IndentedHead(f[1]);
    IndentedHead(f[2]);
    IndentedHead(f[3]);
    ClosingBrace();
    IndentedHead(f[5]);
    IndentedHead(f[6]);
  }

  lemma ClosingBrace()
    ensures TrimSpace("\t}") == "}"
  {
    assert "\t}" == "\t" + "}" + "";
    TrimOf("\t", "}", "", IsSpace);
  }

  /** What a tab-indented line says starts after its tabs. */
  lemma IndentedHead(l: string)
    requires |l| >= 3 && l[0] == '\t'
    requires (l[1] != '\t' && !IsSpace(l[1]) && l[1] != '#') || (l[1] == '\t' && !IsSpace(l[2]) && l[2] != '#')
    ensures TrimSpace(l) != "" ==> TrimSpace(l)[0] != '#'
  {
    if !IsSpace(l[1]) {
      assert TrimLeft(l[1..], IsSpace) == l[1..];
      assert TrimLeft(l, IsSpace) == l[1..];
    } else {
      assert l[1..][1..] == l[2..];
      assert TrimLeft(l[2..], IsSpace) == l[2..];
      assert TrimLeft(l[1..], IsSpace) == l[2..];
      assert TrimLeft(l, IsSpace) == l[2..];
    }
  }

  lemma {:induction false} StripFree(ls: seq<string>, app: string, rest: seq<string>)
    requires HookFree(ls, app)
    ensures StripLines(ls + rest, app, false) == ls + StripLines(rest, app, false)
    decreases |ls|
  {
    hide OpensHook, ClosesHook;
    if ls == [] {
      assert ls + rest == rest;
    } else {
      assert ls[0] in ls && forall l :: l in ls[1..] ==> l in ls;
      assert (ls + rest)[1..] == ls[1..] + rest;
      StripFree(ls[1..], app, rest);
    }
  }

  lemma {:induction false} StripInside(ls: seq<string>, last: string, app: string, rest: seq<string>)
    requires forall l :: l in ls ==> !OpensHook(l, app) && !ClosesHook(l, app)
    requires ClosesHook(last, app) && !OpensHook(last, app)
    ensures StripLines(ls + [last] + rest, app, true) == StripLines(rest, app, false)
    decreases |ls|
  {
    hide OpensHook, ClosesHook;
    if ls == [] {
      assert ls + [last] + rest == [last] + rest && ([last] + rest)[1..] == rest;
    } else {
      assert ls[0] in ls && forall l :: l in ls[1..] ==> l in ls;
      assert (ls + [last] + rest)[1..] == ls[1..] + [last] + rest;
      StripInside(ls[1..], last, app, rest);
    }
  }

  lemma StripFragment(app: string, cfg: WebhookConfig, rest: seq<string>)
    requires ValidName(app) && cfg.path != ""
    ensures StripLines(FragmentLines(app, cfg) + rest, app, false) == StripLines(rest, app, false)
  {
    hide OpensHook, ClosesHook, ValidName;
    FragmentMarks(app, cfg);
    var f := FragmentLines(app, cfg);
    hide FragmentLines;
    var mid := f[1..8];
    assert f == [f[0]] + mid + [f[8]];
    assert f + rest == [f[0]] + (mid + [f[8]] + rest);
    assert (f + rest)[1..] == mid + [f[8]] + rest;
    forall l | l in mid ensures !OpensHook(l, app) && !ClosesHook(l, app) {
      var i :| 0 <= i < |mid| && mid[i] == l;
      assert mid[i] == f[i + 1];
    }
    StripInside(mid, f[8], app, rest);
  }

  lemma StripInjectLines(ls: seq<string>, app: string, cfg: WebhookConfig)
    requires HookFree(ls, app) && ValidName(app) && cfg.path != ""
    requires InjectLines(ls, app, cfg).Some?
    ensures StripLines(InjectLines(ls, app, cfg).value, app, false) == ls
  {
    hide OpensHook, ClosesHook, ValidName, FragmentLines, OpeningLine, StripLines;
    var i := OpeningLine(ls).value;
    var a, b := ls[..i + 1], ls[i + 1..];
    assert ls == a + b;
    assert HookFree(a, app) && HookFree(b, app);
    StripFree(a, app, FragmentLines(app, cfg) + b);
    StripFragment(app, cfg, b);
    StripFree(b, app, []);
    assert b + [] == b && StripLines([], app, false) == [] by { StripNothing(app); }
    assert a + FragmentLines(app, cfg) + b == a + (FragmentLines(app, cfg) + b);
  }

  lemma StripNothing(app: string)
    ensures StripLines([], app, false) == []
  {
  }

  lemma FragmentIsLines(app: string, cfg: WebhookConfig)
    requires ValidName(app) && '\n' !in cfg.path
    ensures forall l :: l in FragmentLines(app, cfg) ==> '\n' !in l
  {
    hide ValidName, Digits;
    ValidNameTrimmed(app);
    DigitsAreDigits(cfg.port);
    NoNewline("\t" + HOOK_BEGIN, app, "");
    NoNewline("\t@teploy_hook_", app, " {");
    NoNewline("\t\tpath ", cfg.path, "");
    NoNewline("\thandle @teploy_hook_", app, " {");
    NoNewline(HOOK_PROXY, Digits(cfg.port), "");
    NoNewline("\t" + HOOK_END, app, "");
    assert '\n' !in "\t\tmethod POST" && '\n' !in "\t}";
  }

  lemma NoNewline(a: string, b: string, c: string)
    requires '\n' !in a && '\n' !in b && '\n' !in c
    ensures '\n' !in a + b && '\n' !in a + b + c
  {
  }

  lemma {:induction false} DigitsAreDigits(n: nat)
    ensures '\n' !in Digits(n)
  {
    if n >= 10 {
      DigitsAreDigits(n / 10);
    }
  }

  lemma LastDigit(n: nat)
    ensures Digits(n) != "" && !IsSpace(Digits(n)[|Digits(n)| - 1])
  {
  }

  /** A descriptor whose path is one line, as a persisted one is. */
  predicate GoodConfig(cfg: WebhookConfig) { cfg.path != "" && '\n' !in cfg.path }

  lemma LinesOfInjected(block: string, app: string, cfg: WebhookConfig)
    requires ValidName(app) && GoodConfig(cfg) && Inject(block, app, cfg).Ok?
    ensures InjectLines(LinesOf(block), app, cfg).Some?
    ensures LinesOf(Inject(block, app, cfg).value) == InjectLines(LinesOf(block), app, cfg).value
  {
    hide LinesOf, FragmentLines, OpeningLine, ValidName;
    FragmentIsLines(app, cfg);
    LinesOfText(block);
    LinesOfUnlines(InjectLines(LinesOf(block), app, cfg).value);
  }

  /** Stripping what was injected into a block without a fragment gives the block
      back, but for runs of empty lines. */
  lemma StripUndoesInject(block: string, app: string, cfg: WebhookConfig)
    requires ValidName(app) && GoodConfig(cfg) && HookFree(LinesOf(block), app)
    requires Inject(block, app, cfg).Ok?
    ensures Strip(Inject(block, app, cfg).value, app) == Collapse(block)
  {
    hide LinesOf, StripLines, InjectLines, HookFree, ValidName, Collapse;
    LinesOfInjected(block, app, cfg);
    StripInjectLines(LinesOf(block), app, cfg);
    LinesOfText(block);
  }

  // ---- what an edit makes of a block ----

  /** The block with its fragment renewed from the persisted descriptor. */
  function Renew(block: string, app: string, cfg: Option<WebhookConfig>): Result<string, EditError> {
    var bare := Strip(block, app);
    if cfg.None? then Ok(bare) else Inject(bare, app, cfg.value)
  }

  /** The first line that is neither blank nor a comment, and which opens braces. */
  ghost predicate OpensSite(ls: seq<string>) {
    exists i :: 0 <= i < |ls| && SaysFirst(ls, i) && TrimSpace(ls[i])[|TrimSpace(ls[i])| - 1] == '{' &&
      BraceNet(ls[i]) > 0
  }

  predicate Silent(l: string) { TrimSpace(l) == "" || TrimSpace(l)[0] == '#' }

  predicate SaysFirst(ls: seq<string>, i: nat) {
    i < |ls| && !Silent(ls[i]) && forall j :: 0 <= j < i ==> Silent(ls[j])
  }

  lemma {:induction false} OpeningLineIs(ls: seq<string>)
    ensures OpeningLine(ls).Some? <==> OpensSite(ls)
    ensures OpeningLine(ls).Some? ==> SaysFirst(ls, OpeningLine(ls).value)
  {
    hide TrimSpace, BraceNet;
    if ls != [] {
      var rest := ls[1..];
      OpeningLineIs(rest);
      if Silent(ls[0]) {
        if OpensSite(rest) {
          var i :| 0 <= i < |rest| && SaysFirst(rest, i) && TrimSpace(rest[i])[|TrimSpace(rest[i])| - 1] == '{' &&
            BraceNet(rest[i]) > 0;
          assert SaysFirst(ls, i + 1) && ls[i + 1] == rest[i];
        }
        if OpensSite(ls) {
          var i :| 0 <= i < |ls| && SaysFirst(ls, i) && TrimSpace(ls[i])[|TrimSpace(ls[i])| - 1] == '{' &&
            BraceNet(ls[i]) > 0;
          assert i > 0 && rest[i - 1] == ls[i];
          assert SaysFirst(rest, i - 1);
        }
      } else {
        assert SaysFirst(ls, 0);
        assert forall i :: 0 <= i < |ls| && SaysFirst(ls, i) ==> i == 0;
      }
    }
  }

  /** A renewal succeeds exactly when there is nothing to put in, or the block
      without its fragment starts with a line that opens it. */
  lemma RenewsIff(block: string, app: string, hook: Option<WebhookConfig>)
    ensures Renew(block, app, hook).Ok? <==> hook.None? || OpensSite(LinesOf(Strip(block, app)))
  {
    hide OpensSite, OpeningLine, Strip, LinesOf, FragmentLines;
    var ls := LinesOf(Strip(block, app));
    OpeningLineIs(ls);
    if OpeningLine(ls).Some? {
      OpeningInside(ls);
    }
  }

  lemma {:induction false} StrippedIsFree(ls: seq<string>, app: string, skipping: bool)
    ensures HookFree(StripLines(ls, app, skipping), app)
    ensures forall l :: l in StripLines(ls, app, skipping) ==> l in ls
  {
    hide OpensHook, ClosesHook;
    if ls != [] {
      StrippedIsFree(ls[1..], app, true);
      StrippedIsFree(ls[1..], app, false);
    }
  }

  lemma {:induction false} CollapseTwice(s: string, n: nat)
    ensures Squeeze(Squeeze(s, n), n) == Squeeze(s, n)
    decreases |s|
  {
    if s != "" {
      if s[0] != '\n' {
        CollapseTwice(s[1..], 0);
        assert Squeeze(s, n)[1..] == Squeeze(s[1..], 0);
      } else if n >= 2 {
        CollapseTwice(s[1..], n);
      } else {
        CollapseTwice(s[1..], n + 1);
        assert Squeeze(s, n)[1..] == Squeeze(s[1..], n + 1);
      }
    }
  }

  lemma StripLeavesNoHook(block: string, app: string)
    requires ValidName(app)
    ensures HookFree(LinesOf(Strip(block, app)), app) && Collapse(Strip(block, app)) == Strip(block, app)
  {
    hide LinesOf, OpensHook, ClosesHook, StripLines;
    var kept := StripLines(LinesOf(block), app, false);
    StrippedIsFree(LinesOf(block), app, false);
    LinesOfText(block);
    CollapseTwice(Unlines(kept), 0);
    if kept == [] {
      assert Strip(block, app) == "";
      LinesOfEmpty(app);
    } else {
      LinesOfUnlines(kept);
      SplitSqueeze(Unlines(kept), 0);
      SqueezedMembers(Front(kept), 0);
    }
  }

  lemma LinesOfEmpty(app: string)
    requires ValidName(app)
    ensures LinesOf("") == [""] && HookFree([""], app)
  {
    HookTrims(app);
  }

  /** What a renewal wrote is stripped to what the block was. */
  lemma StripOfRenewed(block: string, app: string, cfg: Option<WebhookConfig>)
    requires ValidName(app) && (cfg.Some? ==> GoodConfig(cfg.value)) && Renew(block, app, cfg).Ok?
    ensures Strip(Renew(block, app, cfg).value, app) == Strip(block, app)
  {
    hide LinesOf, StripLines, InjectLines, HookFree, ValidName, Collapse, GoodConfig, Strip, Inject;
    var bare := Strip(block, app);
    StripLeavesNoHook(block, app);
    if cfg.Some? {
      StripUndoesInject(bare, app, cfg.value);
    } else {
      StripOfFree(bare, app);
    }
  }

  /** Only the last of any renewals counts: a block an edit has written is settled. */
  lemma RenewedIsSettled(block: string, app: string, first: Option<WebhookConfig>, next: Option<WebhookConfig>)
    requires ValidName(app) && (first.Some? ==> GoodConfig(first.value)) && Renew(block, app, first).Ok?
    ensures Renew(Renew(block, app, first).value, app, next) == Renew(block, app, next)
  {
    hide ValidName, GoodConfig, Strip, Inject;
    StripOfRenewed(block, app, first);
  }

  lemma StripOfFree(block: string, app: string)
    requires HookFree(LinesOf(block), app)
    ensures Strip(block, app) == Collapse(block)
  {
    hide LinesOf, OpensHook, ClosesHook, Collapse, StripLines;
    StripFree(LinesOf(block), app, []);
    StripNothing(app);
    assert LinesOf(block) + [] == LinesOf(block);
    LinesOfText(block);
  }
}
