/** The Caddyfile's site blocks and the adoption of foreign ones
    (internal/caddy/routes.go). */
module Routes {
  import opened Wrappers
  import opened Lines
  import opened Text
  import opened TextLines
  import opened Regions
  import opened RouteLex

  datatype SiteBlock = SiteBlock(addresses: seq<string>, lines: seq<string>)

  datatype RouteError = UnterminatedQuote | TopLevelImport | UnrecognizedLine | UnbalancedClose | UnbalancedOpen

  // ---- parsing ----

  predicate ImportLike(trimmed: string) {
    "import" <= trimmed && (|trimmed| == 6 || trimmed[6] == ' ')
  }

  /** The lines after a heredoc's terminator. */
  function AfterTerminator(ls: seq<string>, term: string): (r: seq<string>)
    ensures |r| <= |ls| && r == ls[|ls| - |r|..]
  {
    if ls == [] then [] else if TrimSpace(ls[0]) == term then ls[1..] else AfterTerminator(ls[1..], term)
  }

  function AddLine(cur: Option<SiteBlock>, raw: string): Option<SiteBlock> {
    if cur.Some? then Some(SiteBlock(cur.value.addresses, cur.value.lines + [raw])) else None
  }

  function ConsBlocks(front: seq<SiteBlock>,
                      rest: Result<seq<SiteBlock>, RouteError>): Result<seq<SiteBlock>, RouteError> {
    if rest.Ok? then Ok(front + rest.value) else rest
  }

  /** What a line outside every block does. */
  datatype TopLine = Skipped | Refused(error: RouteError) | Opaque | Opening(block: SiteBlock)

  function ReadTopLine(raw: string, code: string): TopLine {
    var trimmed := TrimSpace(code);
    if trimmed == "" || trimmed[0] == '#' then Skipped
    else if ImportLike(trimmed) then Refused(TopLevelImport)
    else if trimmed == "{" || trimmed[0] == '(' then Opaque
    else if !HasSuffix(trimmed, "{") || BraceNet(code) <= 0 then Refused(UnrecognizedLine)
    else Opening(SiteBlock(SplitAddressLine(TrimSpace(TrimSuffix(trimmed, "{"))), [raw]))
  }

  function ParseFrom(ls: seq<string>, depth: int, cur: Option<SiteBlock>): Result<seq<SiteBlock>, RouteError>
    decreases |ls|
  {
    if ls == [] then if depth != 0 then Err(UnbalancedOpen) else Ok([])
    else
      var raw, line := ls[0], CodeLine(ls[0]);
      if line.None? then Err(UnterminatedQuote)
      else if HeredocTerminator(line.value).Some? then
        ParseFrom(AfterTerminator(ls[1..], HeredocTerminator(line.value).value), depth, AddLine(cur, raw))
      else
        var net := BraceNet(line.value);
        if depth == 0 then
          match ReadTopLine(raw, line.value)
          case Skipped => ParseFrom(ls[1..], 0, cur)
          case Refused(e) => Err(e)
          case Opaque => ParseFrom(ls[1..], net, cur)
          case Opening(b) => ParseFrom(ls[1..], net, Some(b))
        else
          var now := AddLine(cur, raw);
          if depth + net == 0 then ConsBlocks(if now.Some? then [now.value] else [], ParseFrom(ls[1..], 0, None))
          else if depth + net < 0 then Err(UnbalancedClose)
          else ParseFrom(ls[1..], depth + net, now)
  }

  function ParseSites(content: string): Result<seq<SiteBlock>, RouteError> {
    ParseFrom(LogicalLines(LinesOf(content)), 0, None)
  }

  method ParseSiteBlocks(content: string) returns (r: Result<seq<SiteBlock>, RouteError>)
    ensures r == ParseSites(content)
  {
    hide LinesOf, CodeLine, HeredocTerminator, ReadTopLine, BraceNet, TrimSpace;
    var ls := MergeLogicalLines(LinesOf(content));
    var blocks: seq<SiteBlock> := [];
    var depth := 0;
    var cur: Option<SiteBlock> := None;
    var i := 0;
    assert ls[0..] == ls;
    NoBlocksYet(ParseFrom(ls, 0, None));
    while i < |ls|
      invariant 0 <= i <= |ls|
      invariant ParseSites(content) == ConsBlocks(blocks, ParseFrom(ls[i..], depth, cur))
    {
      ghost var here := ls[i..];
      assert here[1..] == ls[i + 1..];
      var raw := ls[i];
      var line := CodeLine(raw);
      if line.None? {
        return Err(UnterminatedQuote);
      }
      var code := line.value;
      var term := HeredocTerminator(code);
      if term.Some? {
        i := SkipHeredoc(ls, i + 1, term.value);
        cur := AddLine(cur, raw);
        continue;
      }
      var net := BraceNet(code);
      i := i + 1;
      if depth == 0 {
        match ReadTopLine(raw, code) {
          case Skipped =>
          case Refused(e) => return Err(e);
          case Opaque => depth := net;
          case Opening(b) => cur, depth := Some(b), net;
        }
        continue;
      }
      cur := AddLine(cur, raw);
      depth := depth + net;
      if depth == 0 {
        ConsBlocksTwice(blocks, if cur.Some? then [cur.value] else [], ParseFrom(ls[i..], 0, None));
        if cur.Some? {
          blocks := blocks + [cur.value];
          cur := None;
        } else {
          assert blocks + [] == blocks;
        }
      }
      if depth < 0 {
        return Err(UnbalancedClose);
      }
    }
    if depth != 0 {
      return Err(UnbalancedOpen);
    }
    assert blocks + [] == blocks;
    r := Ok(blocks);
  }

  method SkipHeredoc(ls: seq<string>, from: nat, term: string) returns (i: nat)
    requires from <= |ls|
    ensures from <= i <= |ls| && ls[i..] == AfterTerminator(ls[from..], term)
  {
    i := from;
    while i < |ls|
      invariant from <= i <= |ls|
      invariant AfterTerminator(ls[from..], term) == AfterTerminator(ls[i..], term)
    {
      assert ls[i..][1..] == ls[i + 1..];
      i := i + 1;
      if TrimSpace(ls[i - 1]) == term {
        return;
      }
    }
  }

  lemma NoBlocksYet(rest: Result<seq<SiteBlock>, RouteError>)
    ensures ConsBlocks([], rest) == rest
  {
    if rest.Ok? {
      assert [] + rest.value == rest.value;
    }
  }

  lemma ConsBlocksTwice(a: seq<SiteBlock>, b: seq<SiteBlock>, rest: Result<seq<SiteBlock>, RouteError>)
    ensures ConsBlocks(a, ConsBlocks(b, rest)) == ConsBlocks(a + b, rest)
  {
    if rest.Ok? {
      assert a + (b + rest.value) == a + b + rest.value;
    }
  }

  // ---- the parse view ----

  predicate OpensRegion(l: string) { BEGIN_PREFIX <= TrimSpace(l) }
  predicate ClosesRegion(l: string) { !OpensRegion(l) && END_PREFIX <= TrimSpace(l) }

  /** The lines with the inside of managed regions blanked. */
  function View(ls: seq<string>, inManaged: bool): seq<string> {
    if ls == [] then []
    else
      var now := OpensRegion(ls[0]) || (inManaged && !ClosesRegion(ls[0]));
      [if now && !OpensRegion(ls[0]) then "" else ls[0]] + View(ls[1..], now)
  }

  // ---- adopting ----

  function AddressHosts(addresses: seq<string>): seq<string> {
    seq(|addresses|, i requires 0 <= i < |addresses| => AddressHost(addresses[i]))
  }

  predicate HostsWithin(addrHosts: seq<string>, hosts: seq<string>) {
    addrHosts != [] && forall a :: a in addrHosts ==> a in hosts
  }

  /** The addresses whose hosts are not requested. */
  function KeptAddresses(addresses: seq<string>, hosts: seq<string>): seq<string> {
    if addresses == [] then []
    else (if AddressHost(addresses[0]) in hosts then [] else [addresses[0]]) + KeptAddresses(addresses[1..], hosts)
  }

  datatype Edit = Keep | Drop | Rewrite(line: string)

  function EditOf(b: SiteBlock, hosts: seq<string>): Edit {
    var kept := KeptAddresses(b.addresses, hosts);
    if HostsWithin(AddressHosts(b.addresses), hosts) then Drop
    else if |kept| == |b.addresses| then Keep
    else if kept == [] || b.lines == [] then Drop
    else Rewrite(LeadingWhitespace(b.lines[0]) + JoinAddresses(kept) + " {")
  }

  function JoinAddresses(kept: seq<string>): string {
    if kept == [] then "" else if |kept| == 1 then kept[0] else kept[0] + ", " + JoinAddresses(kept[1..])
  }

  /** Edits by the code of the address line they apply to. */
  datatype EditMaps = EditMaps(drop: set<string>, rewrite: map<string, string>)

  function EditsFor(blocks: seq<SiteBlock>, hosts: seq<string>): Result<EditMaps, RouteError> {
    if blocks == [] then Ok(EditMaps({}, map[]))
    else
      var b := blocks[|blocks| - 1];
      var before := EditsFor(blocks[..|blocks| - 1], hosts);
      if before.Err? || EditOf(b, hosts).Keep? || b.lines == [] then before
      else match CodeLine(b.lines[0])
        case None => Err(UnterminatedQuote)
        case Some(key) =>
          match EditOf(b, hosts)
          case Rewrite(line) => Ok(before.value.(rewrite := before.value.rewrite[key := line]))
          case _ => Ok(before.value.(drop := before.value.drop + {key}))
  }

  function ConsLines(front: seq<string>, rest: Result<seq<string>, RouteError>): Result<seq<string>, RouteError> {
    if rest.Ok? then Ok(front + rest.value) else rest
  }

  /** Walks the lines, dropping and rewriting blocks by their address line. */
  function ApplyFrom(ls: seq<string>, edits: EditMaps, skipping: bool, depth: int): Result<seq<string>, RouteError>
    decreases |ls|
  {
    if ls == [] then Ok([])
    else match CodeLine(ls[0])
      case None => Err(UnterminatedQuote)
      case Some(code) =>
        var net := BraceNet(code);
        if skipping then ApplyFrom(ls[1..], edits, depth + net > 0, depth + net)
        else if code in edits.drop && net > 0 then ApplyFrom(ls[1..], edits, true, net)
        else if code in edits.rewrite then ConsLines([edits.rewrite[code]], ApplyFrom(ls[1..], edits, false, depth))
        else ConsLines([ls[0]], ApplyFrom(ls[1..], edits, false, depth))
  }

  function AdoptForeign(content: string, hosts: seq<string>): Result<string, RouteError> {
    match ParseSites(Unlines(View(LinesOf(content), false)))
    case Err(e) => Err(e)
    case Ok(blocks) =>
      if forall b :: b in blocks ==> EditOf(b, hosts).Keep? then Ok(content)
      else match EditsFor(blocks, hosts)
        case Err(e) => Err(e)
        case Ok(edits) =>
          match ApplyFrom(LogicalLines(LinesOf(content)), edits, false, 0)
          case Err(e) => Err(e)
          case Ok(out) => Ok(Collapse(Unlines(out)))
  }

  method ApplyEdits(ls: seq<string>, edits: EditMaps) returns (r: Result<seq<string>, RouteError>)
    ensures r == ApplyFrom(ls, edits, false, 0)
  {
    hide CodeLine, BraceNet;
    var out: seq<string> := [];
    var skipping, depth := false, 0;
    assert ls[0..] == ls;
    assert ConsLines([], ApplyFrom(ls, edits, false, 0)) == ApplyFrom(ls, edits, false, 0) by {
      assert ApplyFrom(ls, edits, false, 0).Ok? ==>
        [] + ApplyFrom(ls, edits, false, 0).value == ApplyFrom(ls, edits, false, 0).value;
    }
    for i := 0 to |ls|
      invariant ApplyFrom(ls, edits, false, 0) == ConsLines(out, ApplyFrom(ls[i..], edits, skipping, depth))
    {
      assert ls[i..][1..] == ls[i + 1..];
      var line := CodeLine(ls[i]);
      if line.None? {
        return Err(UnterminatedQuote);
      }
      var net := BraceNet(line.value);
      if skipping {
        depth := depth + net;
        if depth <= 0 {
          skipping := false;
        }
        continue;
      }
      if line.value in edits.drop && net > 0 {
        depth, skipping := net, true;
        continue;
      }
      var kept := if line.value in edits.rewrite then edits.rewrite[line.value] else ls[i];
      ConsLinesTwice(out, [kept], ApplyFrom(ls[i + 1..], edits, false, depth));
      out := out + [kept];
    }
    assert out + [] == out;
    r := Ok(out);
  }

  lemma ConsLinesTwice(a: seq<string>, b: seq<string>, rest: Result<seq<string>, RouteError>)
    ensures ConsLines(a, ConsLines(b, rest)) == ConsLines(a + b, rest)
  {
    if rest.Ok? {
      assert a + (b + rest.value) == a + b + rest.value;
    }
  }

  method CollectEdits(blocks: seq<SiteBlock>, hosts: seq<string>)
    returns (r: Result<EditMaps, RouteError>, edited: bool)
    ensures r == EditsFor(blocks, hosts)
    ensures edited <==> exists b :: b in blocks && !EditOf(b, hosts).Keep?
  {
    hide EditOf, CodeLine;
    var edits := EditMaps({}, map[]);
    edited := false;
    for i := 0 to |blocks|
      invariant EditsFor(blocks[..i], hosts) == Ok(edits)
      invariant edited <==> exists b :: b in blocks[..i] && !EditOf(b, hosts).Keep?
    {
      assert blocks[..i + 1][..i] == blocks[..i];
      assert blocks[..i + 1] == blocks[..i] + [blocks[i]];
      edited := edited || !EditOf(blocks[i], hosts).Keep?;
      if EditOf(blocks[i], hosts).Keep? || blocks[i].lines == [] {
        continue;
      }
      var key := CodeLine(blocks[i].lines[0]);
      if key.None? {
        EditsErr(blocks, hosts, i + 1);
        return Err(UnterminatedQuote), true;
      }
      if EditOf(blocks[i], hosts).Rewrite? {
        edits := edits.(rewrite := edits.rewrite[key.value := EditOf(blocks[i], hosts).line]);
      } else {
        edits := edits.(drop := edits.drop + {key.value});
      }
    }
    assert blocks[..|blocks|] == blocks;
    r := Ok(edits);
  }

  method AdoptForeignBlocks(content: string, hosts: seq<string>) returns (r: Result<string, RouteError>)
    ensures r == AdoptForeign(content, hosts)
  {
    hide ParseSites, EditsFor, EditOf, ApplyFrom, LogicalLines, LinesOf, View;
    var parsed := ParseSiteBlocks(Unlines(View(LinesOf(content), false)));
    if parsed.Err? {
      return Err(parsed.error);
    }
    var edits, edited := CollectEdits(parsed.value, hosts);
    if !edited {
      return Ok(content);
    }
    if edits.Err? {
      return Err(edits.error);
    }
    var ls := MergeLogicalLines(LinesOf(content));
    var out := ApplyEdits(ls, edits.value);
    if out.Err? {
      return Err(out.error);
    }
    var text := CollapseTriples(Unlines(out.value));
    r := Ok(text);
  }

  lemma {:induction false} EditsErr(blocks: seq<SiteBlock>, hosts: seq<string>, n: nat)
    requires n <= |blocks| && EditsFor(blocks[..n], hosts).Err?
    ensures EditsFor(blocks, hosts) == Err(UnterminatedQuote)
    ensures exists b :: b in blocks && !EditOf(b, hosts).Keep?
  {
    EditsErrIsQuote(blocks[..n], hosts);
    if n < |blocks| {
      EditsErr(blocks[..|blocks| - 1], hosts, n) by {
        assert blocks[..|blocks| - 1][..n] == blocks[..n];
      }
    } else {
      assert blocks[..n] == blocks;
    }
  }

  lemma {:induction false} EditsErrIsQuote(blocks: seq<SiteBlock>, hosts: seq<string>)
    requires EditsFor(blocks, hosts).Err?
    ensures EditsFor(blocks, hosts) == Err(UnterminatedQuote)
    ensures exists b :: b in blocks && !EditOf(b, hosts).Keep?
  {
    hide EditOf, CodeLine;
    if blocks != [] {
      if EditsFor(blocks[..|blocks| - 1], hosts).Err? {
        EditsErrIsQuote(blocks[..|blocks| - 1], hosts);
      } else {
        assert blocks[|blocks| - 1] in blocks;
      }
    }
  }
}
