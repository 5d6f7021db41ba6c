/** Maintenance mode on and off (internal/caddy/caddy.go): the stash and the
    round trip. */
module Maintenance {
  import opened Wrappers
  import opened Lines
  import opened Text
  import opened TextLines
  import opened Regions
  import opened RegionLaws
  import opened RegionEdit
  import opened Render
  import opened Webhook
  import opened CaddyFile
  import opened SitePolicies

  // ---- the generation stamp ----

  function ParseDigits(s: string, acc: nat): Option<nat> {
    if s == "" then Some(acc)
    else if '0' <= s[0] <= '9' then ParseDigits(s[1..], acc * 10 + (s[0] as int - '0' as int))
    else None
  }

  /** The generation on the first stamp line; 0 when there is none to read. */
  function GenerationOf(ls: seq<string>): nat {
    if ls == [] then 0
    else if !(GENERATION_PREFIX <= TrimSpace(ls[0])) then GenerationOf(ls[1..])
    else
      var digits := TrimSpace(TrimPrefix(TrimSpace(ls[0]), GENERATION_PREFIX));
      var n := ParseDigits(digits, 0);
      if digits == "" || n.None? || n.value >= 0x1_0000_0000_0000_0000 then 0 else n.value
  }

  function Stamped(generation: nat, block: string): string {
    if generation > 0 then GENERATION_PREFIX + Digits(generation) + "\n" + block else block
  }

  lemma {:induction false} DigitsRead(n: nat, rest: string)
    ensures ParseDigits(Digits(n) + rest, 0) == ParseDigits(rest, n)
    decreases n
  {
    var d := [('0' as int + n % 10) as char];
    if n >= 10 {
      DigitsRead(n / 10, d + rest);
      assert Digits(n) + rest == Digits(n / 10) + (d + rest);
    }
    assert (d + rest)[1..] == rest;
  }

  /** A stamp reads back: a generation that an uint64 holds is the one written. */
  lemma GenerationReads(generation: nat, block: string)
    requires 0 < generation < 0x1_0000_0000_0000_0000
    ensures GenerationOf(LinesOf(GENERATION_PREFIX + Digits(generation) + "\n" + block)) == generation
  {
    hide Split, Digits, Trim;
    var stamp := GENERATION_PREFIX + Digits(generation);
    DigitsAreDigits(generation);
    LastDigit(generation);
    assert '\n' !in stamp;
    SplitLine(stamp, '\n');
    SplitConcat(stamp, '\n', block);
    assert stamp[0] == '#';
    TrimTrimmed(stamp, IsSpace);
    assert stamp[|GENERATION_PREFIX|..] == Digits(generation);
    DigitsRead(generation, "");
    assert Digits(generation) + "" == Digits(generation);
    FirstDigit(generation);
    TrimTrimmed(Digits(generation), IsSpace);
  }

  /** Only the first stamp line counts, and one that cannot be read is none. */
  lemma {:induction false} GenerationIs(ls: seq<string>, i: nat)
    requires i < |ls| && GENERATION_PREFIX <= TrimSpace(ls[i])
    requires forall j :: 0 <= j < i ==> !(GENERATION_PREFIX <= TrimSpace(ls[j]))
    ensures var digits := TrimSpace(TrimSpace(ls[i])[|GENERATION_PREFIX|..]);
      GenerationOf(ls) == match ParseDigits(digits, 0)
        case Some(n) => if digits != "" && n < 0x1_0000_0000_0000_0000 then n else 0
        case None => 0
  {
    hide Trim, ParseDigits;
    if i > 0 {
      GenerationIs(ls[1..], i - 1);
    }
  }

  lemma {:induction false} GenerationFits(ls: seq<string>)
    ensures GenerationOf(ls) < 0x1_0000_0000_0000_0000
  {
    hide TrimSpace, ParseDigits;
    if ls != [] {
      GenerationFits(ls[1..]);
    }
  }

  lemma {:induction false} FirstDigit(n: nat)
    ensures Digits(n) != "" && '0' <= Digits(n)[0] <= '9'
  {
    if n >= 10 {
      FirstDigit(n / 10);
    }
  }

  // ---- the two edits ----

  datatype MaintenanceError = BadEdit(edit: EditError) | BadPolicy(policy: PolicyError) | EmptyStash

  /** The maintenance block for the app as the file now is. */
  function OnBlock(prev: string, app: string, hosts: seq<string>, routable: string -> bool,
                   page: seq<string>): Result<string, MaintenanceError> {
    var cur := ExtractBlock(prev, app);
    if cur == "" then Ok(MaintenanceBlock(hosts, NO_POLICY, routable, page))
    else match ExtractPolicy(cur)
      case Err(e) => Err(BadPolicy(e))
      case Ok(pol) => Ok(Stamped(GenerationOf(LinesOf(cur)), MaintenanceBlock(hosts, pol, routable, page)))
  }

  /** The first stash wins. */
  function OnStash(prev: string, app: string, stash: Option<string>): Option<string> {
    var cur := ExtractBlock(prev, app);
    if cur == "" || ExtractPolicy(cur).Err? || stash.Some? then stash else Some(cur)
  }

  function OnText(prev: string, app: string, hosts: seq<string>, hook: Option<WebhookConfig>,
                  routable: string -> bool, page: seq<string>): Result<string, MaintenanceError> {
    match OnBlock(prev, app, hosts, routable, page)
    case Err(e) => Err(e)
    case Ok(block) =>
      match ApplyManaged(prev, BlockEdit(app, hosts, block, hook))
      case Err(e) => Err(BadEdit(e))
      case Ok(text) => Ok(text)
  }

  /** What a stash reads back as: the executor trims its end. */
  function ReadStash(stash: string): string { Bare(TrimRight(stash, IsSpace)) }

  function OffText(prev: string, app: string, stash: string,
                   hook: Option<WebhookConfig>): Result<string, MaintenanceError> {
    var restored := ReadStash(stash);
    if restored == "" then Err(EmptyStash)
    else match ApplyManaged(prev, BlockEdit(app, [], restored, hook))
      case Err(e) => Err(BadEdit(e))
      case Ok(text) => Ok(text)
  }

  // ---- on the server ----

  datatype SiteState = SiteState(file: string, stash: Option<string>)

  /** How a transaction can end: its stash could not be read or written, and
      nothing was; committed; refused before the commit; or rolled back after a
      failed reload to what was read. */
  datatype Fate = Unstashed | Commits | Refused | RollsBack

  function Settle(file: string, updated: string, fate: Fate): string {
    if updated == TrimSpace(file) then file
    else match fate
      case Unstashed => file
      case Commits => updated
      case Refused => file
      case RollsBack => TrimSpace(file)
  }

  function OnStep(s: SiteState, app: string, hosts: seq<string>, hook: Option<WebhookConfig>,
                  routable: string -> bool, page: seq<string>, fate: Fate): SiteState {
    var prev := TrimSpace(s.file);
    var text := OnText(prev, app, hosts, hook, routable, page);
    if fate.Unstashed? then s
    else SiteState(if text.Ok? then Settle(s.file, text.value, fate) else s.file, OnStash(prev, app, s.stash))
  }

  function OffStep(s: SiteState, app: string, hook: Option<WebhookConfig>, fate: Fate, stashDeleted: bool): SiteState {
    if s.stash.None? || fate.Unstashed? then s
    else
      var text := OffText(TrimSpace(s.file), app, s.stash.value, hook);
      if text.Err? then s
      else SiteState(Settle(s.file, text.value, fate),
                     if (fate.Commits? || text.value == TrimSpace(s.file)) && stashDeleted then None else s.stash)
  }

  class Server {
    var file: string
    var stash: Option<string>

    function State(): SiteState
      reads this
    {
      SiteState(file, stash)
    }

    method SetMaintenance(app: string, hosts: seq<string>, hook: Option<WebhookConfig>, routable: string -> bool,
                          page: seq<string>, fate: Fate)
      returns (ok: bool)
      modifies this
      ensures State() == OnStep(old(State()), app, hosts, hook, routable, page, fate)
      ensures ok <==> var prev := TrimSpace(old(file)); var text := OnText(prev, app, hosts, hook, routable, page);
        && text.Ok? && !(fate.Unstashed? && ExtractBlock(prev, app) != "")
        && (fate.Commits? || text.value == prev)
      ensures fate.Unstashed? ==> State() == old(State())
      ensures !ok ==> file == old(file) || (fate.RollsBack? && file == TrimSpace(old(file)))
      ensures old(stash).Some? ==> stash == old(stash)
    {
      hide ApplyManaged, ExtractPolicy, MaintenanceBlock, TrimSpace, ExtractBlock, GenerationOf, Stamped, LinesOf;
      var prev := TrimSpace(file);
      var block := MaintenanceBlock(hosts, NO_POLICY, routable, page);
      var cur := ExtractCaddyfileBlock(prev, app);
      if cur != "" {
        var extracted := ExtractPolicy(cur);
        if extracted.Err? {
          return false;
        }
        if fate.Unstashed? {
          return false;
        }
        if stash.None? {
          stash := Some(cur);
        }
        block := Stamped(GenerationOf(LinesOf(cur)), MaintenanceBlock(hosts, extracted.value, routable, page));
      }
      var updated := ApplyManaged(prev, BlockEdit(app, hosts, block, hook));
      if updated.Err? {
        return false;
      }
      ok := fate.Commits? || updated.value == prev;
      file := Settle(file, updated.value, fate);
    }

    method RemoveMaintenance(app: string, hook: Option<WebhookConfig>, fate: Fate, stashDeleted: bool)
      returns (ok: bool)
      modifies this
      ensures State() == OffStep(old(State()), app, hook, fate, stashDeleted)
      ensures ok <==> !fate.Unstashed? && (old(stash).Some? ==>
        var prev := TrimSpace(old(file)); var text := OffText(prev, app, old(stash).value, hook);
        text.Ok? && (fate.Commits? || text.value == prev))
      ensures !ok ==> stash == old(stash)
      ensures !ok ==> file == old(file) || (fate.RollsBack? && file == TrimSpace(old(file)))
      ensures ok ==> stash == if stashDeleted then None else old(stash)
    {
      hide ApplyManaged, ReadStash, TrimSpace;
      if fate.Unstashed? {
        return false;
      }
      if stash.None? {
        return true;
      }
      var restored := ReadStash(stash.value);
      if restored == "" {
        return false;
      }
      var prev := TrimSpace(file);
      var updated := ApplyManaged(prev, BlockEdit(app, [], restored, hook));
      if updated.Err? {
        return false;
      }
      ok := fate.Commits? || updated.value == prev;
      file := Settle(file, updated.value, fate);
      if ok && stashDeleted {
        stash := None;
      }
    }
  }

  // ---- the round trip ----

  /** While maintenance is on: it is switched on again, however that ends, or
      anyone edits the file in any other way. */
  datatype Event = On(hosts: seq<string>, fate: Fate) | Elsewhere(file: string)

  function Step(s: SiteState, app: string, hook: Option<WebhookConfig>, routable: string -> bool, page: seq<string>,
                e: Event): SiteState {
    match e
    case On(hosts, fate) => OnStep(s, app, hosts, hook, routable, page, fate)
    case Elsewhere(file) => SiteState(file, s.stash)
  }

  function After(s: SiteState, app: string, hook: Option<WebhookConfig>, routable: string -> bool, page: seq<string>,
                 es: seq<Event>): SiteState {
    if es == [] then s
    else Step(After(s, app, hook, routable, page, es[..|es| - 1]), app, hook, routable, page, es[|es| - 1])
  }

  /** A block no edit would change: its fragment is the persisted one, it has no
      runs of empty lines, and its last character is not white space. */
  predicate Settled(block: string, app: string, hook: Option<WebhookConfig>) {
    block != "" && !IsSpace(block[|block| - 1]) && Renew(block, app, hook) == Ok(block)
  }

  /** What a renewal has written is settled, if it says something at its end. */
  lemma RenewedSettles(block: string, app: string, hook: Option<WebhookConfig>, renewed: string)
    requires ValidName(app) && (hook.Some? ==> GoodConfig(hook.value)) && Renew(block, app, hook) == Ok(renewed)
    requires renewed != "" && !IsSpace(renewed[|renewed| - 1])
    ensures Settled(renewed, app, hook)
  {
    RenewedIsSettled(block, app, hook, hook);
  }

  predicate Stashes(e: Event) { e.On? && !e.fate.Unstashed? }

  /** The first enabling that gets as far as its stash. */
  predicate FirstStash(es: seq<Event>, k: nat) {
    k < |es| && Stashes(es[k]) && forall i :: 0 <= i < k ==> !Stashes(es[i])
  }

  lemma {:induction false} FirstOf(es: seq<Event>) returns (k: nat)
    ensures FirstStash(es, k) || (k == |es| && forall e :: e in es ==> !Stashes(e))
  {
    if es == [] {
      k := 0;
    } else {
      var front := es[..|es| - 1];
      k := FirstOf(front);
      assert es == front + [es[|es| - 1]];
      if k == |front| && !Stashes(es[k]) {
        k := |es|;
      }
    }
  }

  /** Until then there is none. */
  lemma {:induction false} NoStashYet(s: SiteState, app: string, hook: Option<WebhookConfig>,
                                      routable: string -> bool, page: seq<string>, es: seq<Event>)
    requires forall i :: 0 <= i < |es| ==> !Stashes(es[i])
    ensures After(s, app, hook, routable, page, es).stash == s.stash
    ensures (forall i :: 0 <= i < |es| ==> es[i].On?) ==> After(s, app, hook, routable, page, es) == s
  {
    hide OnText, OnStash, Settle, TrimSpace;
    if es != [] {
      NoStashYet(s, app, hook, routable, page, es[..|es| - 1]);
    }
  }

  lemma {:induction false} FirstStashWins(s: SiteState, app: string, hook: Option<WebhookConfig>,
                                          routable: string -> bool, page: seq<string>, es: seq<Event>, k: nat)
    requires s.stash == None && FirstStash(es, k)
    requires var cur := ExtractBlock(TrimSpace(After(s, app, hook, routable, page, es[..k]).file), app);
      cur != "" && ExtractPolicy(cur).Ok?
    ensures After(s, app, hook, routable, page, es).stash ==
      Some(ExtractBlock(TrimSpace(After(s, app, hook, routable, page, es[..k]).file), app))
  {
    hide OnText, ExtractBlock, ExtractPolicy, Settle, TrimSpace;
    if |es| == k + 1 {
      NoStashYet(s, app, hook, routable, page, es[..k]);
    } else {
      var front := es[..|es| - 1];
      assert front[..k] == es[..k];
      FirstStashWins(s, app, hook, routable, page, front, k);
    }
  }

  lemma BareOfExtracted(content: string, app: string)
    ensures Bare(ExtractBlock(content, app)) == ExtractBlock(content, app)
  {
    hide TrimLeft, TrimRight, LinesOf, Unlines, ExtractLines;
    var out := ExtractLines(LinesOf(content), TrimSpace(app), false, []);
    if out.Some? {
      TrimEnds(Unlines(out.value), IsNewline);
      TrimTrimmed(Bare(Unlines(out.value)), IsNewline);
    } else {
      TrimTrimmed("", IsNewline);
    }
  }

  /** An edit that writes back a settled block succeeds, and the block reads back
      as it was. */
  lemma SettledReadsBack(prev: string, app: string, block: string, hook: Option<WebhookConfig>)
    requires WellFormed(LinesOf(prev)) && ValidName(app) && NoMarkers(LinesOf(block)) &&
      (hook.Some? ==> GoodConfig(hook.value))
    requires block != "" && Bare(block) == block && Renew(block, app, hook) == Ok(block)
    ensures var r := ApplyManaged(prev, BlockEdit(app, [], block, hook));
      && r.Ok? && WellFormed(LinesOf(r.value)) && ExtractBlock(r.value, app) == block
      && NearRegions(RegionsOf(LinesOf(r.value)),
        MeantBy(RegionsOf(LinesOf(prev)), BlockEdit(app, [], block, hook), LegacyGoes(prev, app, [])))
  {
    hide WellFormed, RegionsOf, LinesOf, RemoveBlock, ValidName, LegacyGoes, RenderUpdated, PutBlock, BodyOf,
      NoMarkers, ExtractBlock, Renew, GoodConfig, AdoptionSpares, Unlines, MeantBy, Trim, NearRegions;
    var e := BlockEdit(app, [], block, hook);
    WhenAdoptionSpares(prev, app, [], []);
    RenderKeeps(prev, app, [], block);
    var r := RenderUpdated(prev, app, [], block).value;
    ExtractReadsRegion(r, app);
    WrittenBlockReadsBack(block);
    RemoveNear(r, app);
    ManagedEditKeeps(prev, e);
    var after := ApplyManaged(prev, e).value;
    ExtractReadsRegion(after, app);
  }

  /** The file after an edit that wrote the block. */
  ghost predicate Restored(file: string, before: string, app: string, block: string, hook: Option<WebhookConfig>) {
    && WellFormed(LinesOf(before)) && WellFormed(LinesOf(file)) && ExtractBlock(file, app) == block
    && NearRegions(RegionsOf(LinesOf(file)),
      MeantBy(RegionsOf(LinesOf(before)), BlockEdit(app, [], block, hook), LegacyGoes(before, app, [])))
  }

  lemma ReadRestored(text: string, before: string, app: string, block: string, hook: Option<WebhookConfig>)
    requires WellFormed(LinesOf(before)) && ValidName(app) && Restored(text, before, app, block, hook)
    ensures Restored(TrimSpace(text), before, app, block, hook)
  {
    hide WellFormed, RegionsOf, LinesOf, ValidName, ExtractBlock, TrimSpace, MeantBy, LegacyGoes;
    TrimmedReadsSame(text, app);
    Read(text);
  }

  lemma OffRestores(mid: SiteState, app: string, hook: Option<WebhookConfig>, cur: string)
    requires mid.stash == Some(cur) && WellFormed(LinesOf(TrimSpace(mid.file))) && ValidName(app) &&
      (hook.Some? ==> GoodConfig(hook.value))
    requires NoMarkers(LinesOf(cur)) && Bare(cur) == cur && Settled(cur, app, hook)
    ensures var end := OffStep(mid, app, hook, Commits, true);
      end.stash == None && Restored(TrimSpace(end.file), TrimSpace(mid.file), app, cur, hook)
  {
    hide WellFormed, RegionsOf, LinesOf, ValidName, ExtractBlock, TrimSpace, MeantBy, LegacyGoes, ApplyManaged, Renew,
      GoodConfig, NoMarkers, Restored, Trim;
    var prev := TrimSpace(mid.file);
    StashReadsBack(cur);
    SettledReadsBack(prev, app, cur, hook);
    var text := ApplyManaged(prev, BlockEdit(app, [], cur, hook)).value;
    assert Restored(text, prev, app, cur, hook) by { SettledIsRestored(prev, app, cur, hook); }
    ReadRestored(text, prev, app, cur, hook);
    ReadTwice(mid.file);
  }

  lemma SettledIsRestored(prev: string, app: string, block: string, hook: Option<WebhookConfig>)
    requires WellFormed(LinesOf(prev)) && ValidName(app) && NoMarkers(LinesOf(block)) &&
      (hook.Some? ==> GoodConfig(hook.value))
    requires block != "" && Bare(block) == block && Renew(block, app, hook) == Ok(block)
    ensures ApplyManaged(prev, BlockEdit(app, [], block, hook)).Ok?
    ensures Restored(ApplyManaged(prev, BlockEdit(app, [], block, hook)).value, prev, app, block, hook)
  {
    hide WellFormed, RegionsOf, LinesOf, ValidName, ExtractBlock, MeantBy, LegacyGoes, ApplyManaged, Renew,
      GoodConfig, NoMarkers, Trim, NearRegions;
    SettledReadsBack(prev, app, block, hook);
  }

  /** Maintenance is a round trip: with a settled block and no stale stash,
      switching it on any number of times, whatever else is written meanwhile,
      and then off restores exactly the app's block that was live when it was
      first stashed, and touches no other region. (A deploy in between is written
      over: the stash is not refreshed.) */
  lemma MaintenanceRoundTrip(s: SiteState, app: string, hook: Option<WebhookConfig>, routable: string -> bool,
                             page: seq<string>, es: seq<Event>, k: nat)
    requires s.stash == None && FirstStash(es, k)
    requires ValidName(app) && (hook.Some? ==> GoodConfig(hook.value))
    requires var live := After(s, app, hook, routable, page, es[..k]).file;
      var cur := ExtractBlock(TrimSpace(live), app);
      WellFormed(LinesOf(live)) && Settled(cur, app, hook) && ExtractPolicy(cur).Ok?
    requires WellFormed(LinesOf(After(s, app, hook, routable, page, es).file))
    ensures var mid := After(s, app, hook, routable, page, es);
      var live := After(s, app, hook, routable, page, es[..k]).file;
      var end := OffStep(mid, app, hook, Commits, true);
      && end.stash == None
      && Restored(TrimSpace(end.file), TrimSpace(mid.file), app, ExtractBlock(TrimSpace(live), app), hook)
  {
    hide WellFormed, LinesOf, ValidName, ExtractBlock, ExtractPolicy, After, Renew, GoodConfig, TrimSpace, RegionsOf,
      NoMarkers, Restored, OffStep, Settled;
    var live := After(s, app, hook, routable, page, es[..k]).file;
    var prev := TrimSpace(live);
    var cur := ExtractBlock(prev, app);
    var mid := After(s, app, hook, routable, page, es);
    SettledSpeaks(cur, app, hook);
    FirstStashWins(s, app, hook, routable, page, es, k);
    Read(live);
    Read(mid.file);
    ExtractedHasNoMarkers(prev, app);
    BareOfExtracted(prev, app);
    OffRestores(mid, app, hook, cur);
  }

  // ---- a stash that was there before ----

  /** A stash as an earlier enabling left it. */
  predicate StashedBlock(block: string, app: string, hook: Option<WebhookConfig>) {
    Settled(block, app, hook) && Bare(block) == block && NoMarkers(LinesOf(block))
  }

  /** Switching maintenance on and off restores the block that was live just
      before exactly when there was no stash yet, or it held that very block. */
  lemma RestoresWhatWasLiveIff(s: SiteState, app: string, hosts: seq<string>, hook: Option<WebhookConfig>,
                               routable: string -> bool, page: seq<string>, fate: Fate)
    requires WellFormed(LinesOf(s.file)) && ValidName(app) && (hook.Some? ==> GoodConfig(hook.value))
    requires var cur := ExtractBlock(TrimSpace(s.file), app); Settled(cur, app, hook) && ExtractPolicy(cur).Ok?
    requires s.stash.Some? ==> StashedBlock(s.stash.value, app, hook)
    requires WellFormed(LinesOf(OnStep(s, app, hosts, hook, routable, page, fate).file))
    ensures var end := OffStep(OnStep(s, app, hosts, hook, routable, page, fate), app, hook, Commits, true);
      var cur := ExtractBlock(TrimSpace(s.file), app);
      ExtractBlock(TrimSpace(end.file), app) == cur <==> s.stash == None || s.stash == Some(cur)
  {
    hide WellFormed, LinesOf, ValidName, ExtractBlock, ExtractPolicy, Renew, GoodConfig, TrimSpace, RegionsOf,
      NoMarkers, OffStep, Settled, OnText, Settle;
    var prev := TrimSpace(s.file);
    var cur := ExtractBlock(prev, app);
    var mid := OnStep(s, app, hosts, hook, routable, page, fate);
    SettledSpeaks(cur, app, hook);
    Read(s.file);
    Read(mid.file);
    ExtractedHasNoMarkers(prev, app);
    BareOfExtracted(prev, app);
    if mid.stash.Some? {
      OffRestores(mid, app, hook, mid.stash.value);
    } else {
      NothingToUndo(mid, app, hook);
    }
  }

  lemma NothingToUndo(s: SiteState, app: string, hook: Option<WebhookConfig>)
    requires s.stash == None
    ensures OffStep(s, app, hook, Commits, true) == s
  {
  }

  /** An enabling that is refused leaves its stash behind: after a deploy, the next
      one and the disabling that ends it bring back the route from before the
      deploy. */
  lemma RefusedEnablingRestoresAnOlderRoute(s: SiteState, app: string, hosts: seq<string>,
                                            hook: Option<WebhookConfig>, routable: string -> bool,
                                            page: seq<string>, deployed: string)
    requires s.stash == None && WellFormed(LinesOf(s.file)) && ValidName(app) && (hook.Some? ==> GoodConfig(hook.value))
    requires var older := ExtractBlock(TrimSpace(s.file), app); Settled(older, app, hook) && ExtractPolicy(older).Ok?
    requires ExtractBlock(TrimSpace(deployed), app) != ExtractBlock(TrimSpace(s.file), app)
    requires var es := [On(hosts, Refused), Elsewhere(deployed), On(hosts, Commits)];
      WellFormed(LinesOf(After(s, app, hook, routable, page, es).file))
    ensures var es := [On(hosts, Refused), Elsewhere(deployed), On(hosts, Commits)];
      var end := OffStep(After(s, app, hook, routable, page, es), app, hook, Commits, true);
      ExtractBlock(TrimSpace(end.file), app) ==
        ExtractBlock(TrimSpace(s.file), app) != ExtractBlock(TrimSpace(deployed), app)
  {
    hide WellFormed, LinesOf, ValidName, ExtractBlock, ExtractPolicy, After, Renew, GoodConfig, TrimSpace, RegionsOf,
      OffStep, Settled;
    var es := [On(hosts, Refused), Elsewhere(deployed), On(hosts, Commits)];
    assert es[..0] == [];
    AfterNothing(s, app, hook, routable, page);
    MaintenanceRoundTrip(s, app, hook, routable, page, es, 0);
  }

  lemma AfterNothing(s: SiteState, app: string, hook: Option<WebhookConfig>, routable: string -> bool,
                     page: seq<string>)
    ensures After(s, app, hook, routable, page, []) == s
  {
  }

  lemma SettledSpeaks(block: string, app: string, hook: Option<WebhookConfig>)
    requires Settled(block, app, hook)
    ensures block != ""
  {
  }

  lemma StashReadsBack(cur: string)
    requires cur != "" && !IsSpace(cur[|cur| - 1]) && Bare(cur) == cur
    ensures ReadStash(cur) == cur
  {
  }

  lemma TrimmedReadsSame(text: string, app: string)
    requires WellFormed(LinesOf(text)) && ValidName(app)
    ensures WellFormed(LinesOf(TrimSpace(text))) && ExtractBlock(TrimSpace(text), app) == ExtractBlock(text, app)
  {
    hide WellFormed, RegionsOf, LinesOf, ValidName, ExtractBlock, TrimSpace;
    Read(text);
    ExtractReadsRegion(text, app);
    ExtractReadsRegion(TrimSpace(text), app);
  }
}
