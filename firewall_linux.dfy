/** The rule-table parser for the output of `ufw status verbose`. */
module FirewallLinux {
  import opened Wrappers
  import opened PyStr

  /** A rule record as the Linux parser builds it. `name` is always `None`, `enabled` always
      true and `remotePort` always "ANY"; they are kept so that the record has the same keys as
      the Windows one. */
  datatype UfwRule = UfwRule(
    name: Option<string>,
    direction: string,
    action: string,
    protocol: string,
    enabled: bool,
    localPort: string,
    remotePort: string)

  /** The header of the rules table holds the words "To", "Action" and "From". */
  predicate IsHeader(line: string) {
    Contains(line, "To") && Contains(line, "Action") && Contains(line, "From")
  }

  /** The index of the first header line at or after `i`. */
  function HeaderFrom(lines: seq<string>, i: nat): Option<nat>
    requires i <= |lines|
    decreases |lines| - i
  {
    if i == |lines| then None
    else if IsHeader(lines[i]) then Some(i)
    else HeaderFrom(lines, i + 1)
  }

  /** The index of the first header line. */
  function HeaderIndex(lines: seq<string>): Option<nat> {
    HeaderFrom(lines, 0)
  }

  /** The search from `i` finds a header line at or after `i`, and no earlier one from `i` on. */
  lemma {:induction false} HeaderFromFound(lines: seq<string>, i: nat)
    requires i <= |lines|
    ensures HeaderFrom(lines, i).Some? ==>
        && i <= HeaderFrom(lines, i).value < |lines|
        && IsHeader(lines[HeaderFrom(lines, i).value])
        && forall j :: i <= j < HeaderFrom(lines, i).value ==> !IsHeader(lines[j])
    decreases |lines| - i
  {
    if i < |lines| && !IsHeader(lines[i]) {
      assert HeaderFrom(lines, i) == HeaderFrom(lines, i + 1);
      HeaderFromFound(lines, i + 1);
    }
  }

  /** The search from `i` finds nothing exactly when no line from `i` on is a header. */
  lemma {:induction false} HeaderFromNone(lines: seq<string>, i: nat)
    requires i <= |lines|
    ensures HeaderFrom(lines, i).None? <==> forall j :: i <= j < |lines| ==> !IsHeader(lines[j])
    decreases |lines| - i
  {
    if i < |lines| && !IsHeader(lines[i]) {
      HeaderFromNone(lines, i + 1);
    }
  }

  /** The text before the first "/" of the "To" token, or the whole token. The token comes from
      `split()` and is never empty, so the source's `None` for an empty token never arises. */
  function PortOf(to: string): (port: string)
    ensures '/' !in port
    ensures '/' !in to ==> port == to
    ensures |port| <= |to| && port == to[..|port|]
  {
    var pieces := Split(to, '/');
    SplitJoin(to, '/');
    JoinHead(pieces, '/');
    pieces[0]
  }

  /** The "/"-segment after the port, upper-cased, or "ANY" when the token has no "/". */
  function ProtocolOf(to: string): (protocol: string)
    ensures '/' !in protocol
    ensures '/' !in to ==> protocol == "ANY"
    ensures forall i :: 0 <= i < |protocol| ==> !IsLowerLetter(protocol[i])
  {
    if '/' in to then
      SplitAtSeparator(to, '/');
      var pieces := Split(to, '/');
      assert '/' !in pieces[1];
      UpperKeepsSlashOut(pieces[1]);
      Upper(pieces[1])
    else "ANY"
  }

  /** "ALLOW" exactly when the action token, upper-cased, contains "ALLOW"; "DENY" otherwise. */
  function ActionOf(part: string): (action: string)
    ensures action == "ALLOW" || action == "DENY"
    ensures action == "ALLOW" <==> Contains(Upper(part), "ALLOW")
  {
    if Contains(Upper(part), "ALLOW") then "ALLOW" else "DENY"
  }

  /** "INBOUND" when the third token contains "IN" (case matters) or the row lacks "OUT". */
  function DirectionOf(part: string, line: string): (direction: string)
    ensures direction == "INBOUND" || direction == "OUTBOUND"
    ensures direction == "OUTBOUND" <==> !Contains(part, "IN") && Contains(line, "OUT")
  {
    if Contains(part, "IN") || !Contains(line, "OUT") then "INBOUND" else "OUTBOUND"
  }

  /** A data row is used when, trimmed, it is not empty, is not a "--" separator and has at
      least three whitespace-separated tokens. */
  predicate Accepted(raw: string) {
    var line := Strip(raw);
    line != "" && !StartsWith(line, "--") && |SplitWs(line)| >= 3
  }

  /** The rule a data row describes, when it is used. */
  function RowRule(raw: string): (r: Option<UfwRule>)
    ensures r.Some? <==> Accepted(raw)
  {
    var line := Strip(raw);
    if line == "" || StartsWith(line, "--") then None
    else
      var parts := SplitWs(line);
      if |parts| < 3 then None
      else
        Some(UfwRule(None, DirectionOf(parts[2], line), ActionOf(parts[1]), ProtocolOf(parts[0]),
                     true, PortOf(parts[0]), "ANY"))
  }

  /** The rules of the data rows, one per used row, in row order. */
  function Rows(lines: seq<string>): seq<UfwRule> {
    FilterMap(lines, RowRule)
  }

  /** Python's `lines[start:]`, which is empty when `start` is past the end. */
  function Tail(lines: seq<string>, start: nat): (rows: seq<string>)
    ensures start <= |lines| ==> rows == lines[start..]
    ensures start >= |lines| ==> rows == []
  {
    if start <= |lines| then lines[start..] else []
  }

  /** What `parse_firewall_output` returns for `output`. */
  function ParseUfw(output: string): seq<UfwRule> {
    TableRules(Split(Strip(output), '\n'))
  }

  /** The rules of the table that starts at the first header among `lines`. */
  function TableRules(lines: seq<string>): seq<UfwRule> {
    var header := HeaderIndex(lines);
    if header.None? then [] else Rows(Tail(lines, header.value + 2))
  }

  /** `parse_firewall_output(output, ports_filter, enabled_only, exclude_any_ports)`: a loop
      that stops at the first header line, then a loop over the data rows that trims, skips and
      appends. The three filter arguments are accepted and never read. */
  method ParseFirewallOutput(output: string, portsFilter: seq<int>, enabledOnly: bool, excludeAnyPorts: bool)
    returns (rules: seq<UfwRule>)
    ensures rules == ParseUfw(output)
  {
    var lines := Split(Strip(output), '\n');
    rules := [];

    var startIndex := FindHeader(lines);
    if startIndex == -1 {
      return;
    }
    rules := ParseRows(Tail(lines, startIndex));
  }

  /** The second loop of `parse_firewall_output`: one rule per used data row, appended in order. */
  method ParseRows(ruleLines: seq<string>) returns (rules: seq<UfwRule>)
    ensures rules == Rows(ruleLines)
  {
    rules := [];
    for k := 0 to |ruleLines|
      invariant rules == Rows(ruleLines[..k])
    {
      var row := ParseRow(ruleLines[k]);
      TakeOneMore(ruleLines, k);
      RowsAppend(ruleLines[..k], [ruleLines[k]]);
      RowsOfOne(ruleLines[k]);
      if row.Some? {
        rules := rules + [row.value];
      }
    }
    assert ruleLines[..|ruleLines|] == ruleLines;
  }

  /** The body of the second loop for one data row: trim, skip, split and build the rule. */
  method ParseRow(raw: string) returns (row: Option<UfwRule>)
    ensures row == RowRule(raw)
  {
    var line := Strip(raw);
    row := None;
    if line != "" && !StartsWith(line, "--") {
      var parts := SplitWs(line);
      if |parts| >= 3 {
        var toPart := parts[0];
        var actionPart := parts[1];
        var directionPart := if |parts| > 2 then parts[2] else "IN";
        var protocol := "ANY";
        var port := toPart;
        if '/' in toPart {
          SplitAtSeparator(toPart, '/');
          var portProto := Split(toPart, '/');
          port := portProto[0];
          protocol := Upper(portProto[1]);
        }
        var action := if Contains(Upper(actionPart), "ALLOW") then "ALLOW" else "DENY";
        var direction := if Contains(directionPart, "IN") || !Contains(line, "OUT") then "INBOUND" else "OUTBOUND";
        row := Some(UfwRule(None, direction, action, protocol, true, port, "ANY"));
      }
    }
  }

  /** The first loop of `parse_firewall_output`: the index two past the first header line,
      or -1 when there is no header. */
  method FindHeader(lines: seq<string>) returns (startIndex: int)
    ensures startIndex == -1 <==> HeaderIndex(lines).None?
    ensures startIndex != -1 ==> startIndex == HeaderIndex(lines).value + 2
  {
    startIndex := -1;
    for i := 0 to |lines|
      invariant startIndex == -1
      invariant HeaderFrom(lines, i) == HeaderIndex(lines)
    {
      if IsHeader(lines[i]) {
        startIndex := i + 2;
        assert HeaderIndex(lines) == Some(i);
        break;
      }
    }
  }

  lemma JoinHead(parts: seq<string>, sep: char)
    requires |parts| >= 1
    ensures |parts[0]| <= |Join(parts, sep)| && parts[0] == Join(parts, sep)[..|parts[0]|]
  {
  }

  lemma UpperKeepsSlashOut(s: string)
    requires '/' !in s
    ensures '/' !in Upper(s)
  {
    assert forall i :: 0 <= i < |s| ==> Upper(s)[i] == UpperChar(s[i]);
  }

  // ---------------------------------------------------------------------------
  // Properties

  /** Rows are handled one at a time: the rules of two stretches of rows are the rules of
      the first followed by the rules of the second, with nothing merged or reordered. */
  lemma RowsAppend(a: seq<string>, b: seq<string>)
    ensures Rows(a + b) == Rows(a) + Rows(b)
  {
    FilterMapAppend(a, b, RowRule);
  }

  /** A single row gives one rule when it is used and none otherwise. */
  lemma RowsOfOne(raw: string)
    ensures |Rows([raw])| == (if Accepted(raw) then 1 else 0)
    ensures Accepted(raw) ==> Rows([raw]) == [RowRule(raw).value]
  {
    FilterMapOne(raw, RowRule);
  }

  /** There are never more rules than rows, and each rule is that of a used row. */
  lemma RowsFromLines(lines: seq<string>)
    ensures |Rows(lines)| <= |lines|
    ensures forall r :: r in Rows(lines) ==> exists k :: 0 <= k < |lines| && RowRule(lines[k]) == Some(r)
  {
    FilterMapFrom(lines, RowRule);
  }

  /** What a used row yields from its first token: the port is the text before the first "/",
      or the whole token; the protocol is the next "/"-segment upper-cased, or "ANY". The
      name, enabled state and remote port are constants. */
  lemma RowRulePortProtocol(raw: string)
    requires Accepted(raw)
    ensures var tok := SplitWs(Strip(raw))[0];
      var r := RowRule(raw).value;
      && r.name == None && r.enabled && r.remotePort == "ANY"
      && ('/' in tok ==> r.localPort == UpTo(tok, '/') && r.protocol == Upper(UpTo(tok[|UpTo(tok, '/')| + 1..], '/')))
      && ('/' !in tok ==> r.localPort == tok && r.protocol == "ANY")
  {
    var tok := SplitWs(Strip(raw))[0];
    if '/' in tok {
      SplitFirstTwo(tok, '/');
    }
  }

  /** The action is "ALLOW" exactly when the second token, upper-cased, contains "ALLOW", and
      "DENY" otherwise; the direction is "OUTBOUND" exactly when the third token lacks "IN" and
      the trimmed row holds "OUT", and "INBOUND" otherwise. */
  lemma RowRuleActionDirection(raw: string)
    requires Accepted(raw)
    ensures var line := Strip(raw);
      var parts := SplitWs(line);
      var r := RowRule(raw).value;
      && |parts| >= 3
      && (r.action == "ALLOW" <==> Contains(Upper(parts[1]), "ALLOW"))
      && (r.action == "DENY" <==> !Contains(Upper(parts[1]), "ALLOW"))
      && (r.direction == "OUTBOUND" <==> !Contains(parts[2], "IN") && Contains(line, "OUT"))
      && (r.direction == "INBOUND" <==> Contains(parts[2], "IN") || !Contains(line, "OUT"))
  {
  }

  /** The action comes from the second token whatever it is: in an IPv6 row such as
      "22/tcp (v6) ALLOW IN Anywhere (v6)" that token is "(v6)", and the rule is a DENY. */
  lemma V6RowIsDeny(raw: string)
    requires Accepted(raw) && SplitWs(Strip(raw))[1] == "(v6)"
    ensures RowRule(raw).value.action == "DENY"
  {
    RowRuleActionDirection(raw);
    assert |Upper("(v6)")| == 4;
    assert !Contains(Upper("(v6)"), "ALLOW");
  }

  /** Without a header line, or with the header on one of the last two lines, there are no rules. */
  lemma TableRulesEmpty(lines: seq<string>)
    requires forall j :: 0 <= j < |lines| - 2 ==> !IsHeader(lines[j])
    ensures TableRules(lines) == []
  {
    HeaderFromFound(lines, 0);
    var r := HeaderIndex(lines);
    if r.Some? {
      assert r.value >= |lines| - 2;
      assert Tail(lines, r.value + 2) == [];
    }
  }

  /** With a header line, the rules are those of the rows from two lines after the first
      header on. */
  lemma TableRulesAfterHeader(lines: seq<string>, h: nat)
    requires h + 2 <= |lines| && IsHeader(lines[h])
    requires forall j :: 0 <= j < h ==> !IsHeader(lines[j])
    ensures TableRules(lines) == Rows(lines[h + 2..])
  {
    assert HeaderIndex(lines) == Some(h) by {
      HeaderIndexIs(lines, h);
    }
    assert Tail(lines, h + 2) == lines[h + 2..];
  }

  /** The first header line is the one the search finds. */
  lemma HeaderIndexIs(lines: seq<string>, h: nat)
    requires h < |lines| && IsHeader(lines[h])
    requires forall j :: 0 <= j < h ==> !IsHeader(lines[j])
    ensures HeaderIndex(lines) == Some(h)
  {
    HeaderFromFound(lines, 0);
    HeaderFromNone(lines, 0);
  }
}
