/**
 * The Windows firewall rule parser: the text printed by
 * `netsh advfirewall firewall show rule name=all` is cut into `Rule Name:` blocks,
 * each block becomes a rule record, and the records are filtered by enabled state,
 * by "Any" ports and by candidate ports.
 */
module FirewallWindows {
  import opened Wrappers
  import opened PyStr

  const RuleMarker := "Rule Name:"

  // ---------------------------------------------------------------------------
  // Cutting the output into blocks

  /** `re.split(r"\n(?=Rule Name:)", output)`: the output is cut at every line feed that is
      immediately followed by the case-sensitive marker `Rule Name:`; the line feed is dropped. */
  function SplitBlocks(output: string): (blocks: seq<string>)
    ensures |blocks| >= 1
  {
    if |output| == 0 then [""]
    else
      var rest := SplitBlocks(output[1..]);
      if output[0] == '\n' && StartsWith(output[1..], RuleMarker) then [""] + rest
      else [[output[0]] + rest[0]] + rest[1..]
  }

  /** A cut point: a line feed at index `i` followed by the marker. */
  predicate CutAt(s: string, i: int) {
    0 <= i < |s| && s[i] == '\n' && StartsWith(s[i + 1..], RuleMarker)
  }

  /** The blocks, joined back with line feeds, give the output. */
  lemma {:induction false} SplitBlocksJoin(output: string)
    ensures Join(SplitBlocks(output), '\n') == output
  {
    if |output| > 0 {
      var rest := SplitBlocks(output[1..]);
      var blocks := SplitBlocks(output);
      SplitBlocksJoin(output[1..]);
      if !(output[0] == '\n' && StartsWith(output[1..], RuleMarker)) {
        var b0 := [output[0]] + rest[0];
        assert blocks == [b0] + rest[1..];
        assert output == [output[0]] + output[1..];
        if |rest| > 1 {
          assert Join(rest, '\n') == rest[0] + ['\n'] + Join(rest[1..], '\n');
          assert Join(blocks, '\n') == b0 + ['\n'] + Join(blocks[1..], '\n');
          assert blocks[1..] == rest[1..];
        }
      }
    }
  }

  /** Every block but the first starts with the marker: a block begins only after a cut point. */
  lemma {:induction false} SplitBlocksMarked(output: string)
    ensures forall k :: 1 <= k < |SplitBlocks(output)| ==> StartsWith(SplitBlocks(output)[k], RuleMarker)
  {
    if |output| > 0 {
      var rest := SplitBlocks(output[1..]);
      var blocks := SplitBlocks(output);
      assert forall k :: 1 <= k < |rest| ==> StartsWith(rest[k], RuleMarker) by {
        SplitBlocksMarked(output[1..]);
      }
      if output[0] == '\n' && StartsWith(output[1..], RuleMarker) {
        assert blocks == [""] + rest;
        assert StartsWith(rest[0], RuleMarker) by {
          FirstBlockHoldsMarker(output[1..]);
        }
        forall k | 1 <= k < |blocks| ensures StartsWith(blocks[k], RuleMarker) {
          assert blocks[k] == rest[k - 1];
        }
      } else {
        assert blocks == [[output[0]] + rest[0]] + rest[1..];
        forall k | 1 <= k < |blocks| ensures StartsWith(blocks[k], RuleMarker) {
          assert blocks[k] == rest[k];
        }
      }
    }
  }

  /** No block holds a cut point of its own: the output is cut at every cut point. */
  lemma {:induction false} SplitBlocksUncut(output: string)
    ensures forall k, i :: 0 <= k < |SplitBlocks(output)| && 0 <= i < |SplitBlocks(output)[k]| ==>
              !CutAt(SplitBlocks(output)[k], i)
  {
    if |output| > 0 {
      var rest := SplitBlocks(output[1..]);
      var blocks := SplitBlocks(output);
      assert forall k, i :: 0 <= k < |rest| && 0 <= i < |rest[k]| ==> !CutAt(rest[k], i) by {
        SplitBlocksUncut(output[1..]);
      }
      if output[0] == '\n' && StartsWith(output[1..], RuleMarker) {
        assert blocks == [""] + rest;
        forall k, i | 0 <= k < |blocks| && 0 <= i < |blocks[k]| ensures !CutAt(blocks[k], i) {
          assert blocks[k] == rest[k - 1];
        }
      } else {
        var b0 := [output[0]] + rest[0];
        assert blocks == [b0] + rest[1..];
        assert forall i :: 0 <= i < |b0| ==> !CutAt(b0, i) by {
          SplitBlocksJoin(output[1..]);
          NoCutInExtendedBlock(output, rest[0]);
        }
        forall k, i | 0 <= k < |blocks| && 0 <= i < |blocks[k]| ensures !CutAt(blocks[k], i) {
          if k > 0 {
            assert blocks[k] == rest[k];
          }
        }
      }
    }
  }

  /** Prefixing the first block of `output[1..]` with `output[0]`, when that is no cut point,
      creates no cut point. */
  lemma NoCutInExtendedBlock(output: string, b: string)
    requires |output| > 0 && !CutAt(output, 0)
    requires b == SplitBlocks(output[1..])[0]
    requires Join(SplitBlocks(output[1..]), '\n') == output[1..]
    requires forall i :: 0 <= i < |b| ==> !CutAt(b, i)
    ensures forall i :: 0 <= i < |[output[0]] + b| ==> !CutAt([output[0]] + b, i)
  {
    var b0 := [output[0]] + b;
    forall i | 0 <= i < |b0| ensures !CutAt(b0, i) {
      if i == 0 {
        if CutAt(b0, 0) {
          assert b0[1..] == b;
          assert b == output[1..][..|b|] by { JoinPrefix(SplitBlocks(output[1..]), '\n'); }
          assert b[..|RuleMarker|] == output[1..][..|RuleMarker|];
          assert CutAt(output, 0);
        }
      } else {
        assert b0[i] == b[i - 1];
        assert b0[i + 1..] == b[i..];
        assert !CutAt(b, i - 1);
      }
    }
  }

  /** When the text starts with the marker, so does its first block: the marker holds no line feed. */
  lemma FirstBlockHoldsMarker(s: string)
    requires StartsWith(s, RuleMarker)
    ensures StartsWith(SplitBlocks(s)[0], RuleMarker)
  {
    var blocks := SplitBlocks(s);
    SplitBlocksJoin(s);
    JoinPrefix(blocks, '\n');
    if |blocks| > 1 {
      JoinSeparator(blocks, '\n');
      assert s[|blocks[0]|] == '\n';
      assert forall j :: 0 <= j < |RuleMarker| ==> s[j] == RuleMarker[j];
    }
    assert blocks[0][..|RuleMarker|] == s[..|RuleMarker|];
  }

  /** In a join of two or more pieces, the separator follows the first piece. */
  lemma JoinSeparator(parts: seq<string>, sep: char)
    requires |parts| >= 2
    ensures |parts[0]| < |Join(parts, sep)| && Join(parts, sep)[|parts[0]|] == sep
  {
  }

  /** The first piece of a join is a prefix of the joined text. */
  lemma JoinPrefix(parts: seq<string>, sep: char)
    requires |parts| >= 1
    ensures |parts[0]| <= |Join(parts, sep)| && parts[0] == Join(parts, sep)[..|parts[0]|]
  {
  }

  // ---------------------------------------------------------------------------
  // Extracting labelled fields

  predicate AllLineFeeds(s: string) {
    forall i :: 0 <= i < |s| ==> s[i] == '\n'
  }

  /** What `\s*(.+?)(?:\n|$)` captures, stripped, at the start of `rest`, if it matches there.
      `\s*` skips whitespace, line feeds included, and the lazy `.+?` then runs to the end of
      that line. When only whitespace is left, the engine backtracks into `\s*` and captures one
      whitespace character that is not a line feed, which strips to the empty string; when
      only line feeds are left there is no match. */
  function ValueAfter(rest: string): Option<string> {
    var t := StripStart(rest);
    if |t| > 0 then Some(Strip(UpTo(t, '\n')))
    else if !AllLineFeeds(rest) then Some("")
    else None
  }

  /** The pattern matches after the tag exactly when something other than line feeds follows;
      the captured value is then a single trimmed line found in the text. */
  lemma ValueAfterSpec(rest: string)
    ensures ValueAfter(rest).Some? <==> !AllLineFeeds(rest)
    ensures ValueAfter(rest).Some? ==> '\n' !in ValueAfter(rest).value
    ensures ValueAfter(rest).Some? ==> ValueAfter(rest).value == Strip(ValueAfter(rest).value)
    ensures ValueAfter(rest).Some? ==> exists i :: OccursAt(rest, ValueAfter(rest).value, i)
  {
    var t := StripStart(rest);
    if |t| > 0 {
      NotAllLineFeeds(rest);
      var line := UpTo(t, '\n');
      var value := Strip(line);
      assert value == ValueAfter(rest).value;
      StripIdempotent(line);
      ValueInLine(rest);
    } else if !AllLineFeeds(rest) {
      assert OccursAt(rest, "", 0);
    }
  }

  /** A text with a non-whitespace character is not all line feeds. */
  lemma NotAllLineFeeds(rest: string)
    requires |StripStart(rest)| > 0
    ensures !AllLineFeeds(rest)
  {
    var t := StripStart(rest);
    assert t[0] == rest[|rest| - |t|];
  }

  /** The captured value sits in the text right after the skipped whitespace. */
  lemma ValueInLine(rest: string)
    requires |StripStart(rest)| > 0
    ensures OccursAt(rest, Strip(UpTo(StripStart(rest), '\n')), |rest| - |StripStart(rest)|)
  {
    var t := StripStart(rest);
    var line := UpTo(t, '\n');
    var value := Strip(line);
    assert StripStart(line) == line;
    PrefixOfPrefix(t, line, value);
    PrefixAt(rest, |rest| - |t|, value);
  }

  /** A prefix of a prefix is a prefix. */
  lemma PrefixOfPrefix(t: string, line: string, value: string)
    requires |line| <= |t| && line == t[..|line|]
    requires |value| <= |line| && value == line[..|value|]
    ensures value == t[..|value|]
  {
  }

  /** A prefix of the suffix from `o` on occurs at `o`. */
  lemma PrefixAt(rest: string, o: nat, value: string)
    requires o <= |rest| && |value| <= |rest| - o && value == rest[o..][..|value|]
    ensures OccursAt(rest, value, o)
  {
    assert rest[o..][..|value|] == rest[o..o + |value|];
  }

  /** The tag occurs at index `i` of the block, ignoring case. */
  predicate LabelAt(block: string, tag: string, i: int) {
    0 <= i && i + |tag| <= |block| && Lower(block[i..i + |tag|]) == Lower(tag)
  }

  /** The whole pattern `tag\s*(.+?)(?:\n|$)` matches at index `i`. */
  predicate MatchAt(block: string, tag: string, i: int) {
    LabelAt(block, tag, i) && ValueAfter(block[i + |tag|..]).Some?
  }

  /** The places where the whole pattern matches, as a test on indices. */
  function Matches(block: string, tag: string): nat -> bool {
    j => MatchAt(block, tag, j)
  }

  /** `re.search(tag + r"\s*(.+?)(?:\n|$)", block, re.IGNORECASE)` from index `i` on,
      giving `match.group(1).strip()`, or `None` when there is no match. */
  function FieldFrom(block: string, tag: string, i: nat): Option<string>
    requires |tag| > 0 && i <= |block|
  {
    match FirstFrom(i, |block| + 1, Matches(block, tag))
    case None => None
    case Some(j) => ValueAfter(block[j + |tag|..])
  }

  /** The search gives the value at the first index, from `i` on, where the whole pattern
      matches. */
  lemma FieldFromFirstMatch(block: string, tag: string, i: nat, j: nat)
    requires |tag| > 0 && i <= j <= |block|
    requires Matches(block, tag)(j)
    requires forall k :: i <= k < j ==> !Matches(block, tag)(k)
    ensures FieldFrom(block, tag, i) == ValueAfter(block[j + |tag|..])
  {
    FirstFromAt(i, |block| + 1, Matches(block, tag), j);
    FieldFromFound(block, tag, i, j);
  }

  lemma FieldFromFound(block: string, tag: string, i: nat, j: nat)
    requires |tag| > 0 && i <= j <= |block|
    requires FirstFrom(i, |block| + 1, Matches(block, tag)) == Some(j)
    ensures j + |tag| <= |block| && FieldFrom(block, tag, i) == ValueAfter(block[j + |tag|..])
  {
  }

  /** The search gives `None` exactly when the pattern matches nowhere from `i` on. */
  lemma FieldFromNoMatch(block: string, tag: string, i: nat)
    requires |tag| > 0 && i <= |block|
    ensures FieldFrom(block, tag, i).None? <==> forall j :: i <= j <= |block| ==> !Matches(block, tag)(j)
  {
    FirstFromNone(i, |block| + 1, Matches(block, tag));
    match FirstFrom(i, |block| + 1, Matches(block, tag))
    case None =>
    case Some(j) => FieldFromFound(block, tag, i, j); MatchedValue(block, tag, j);
  }

  /** Where the whole pattern matches, the value after the label is found. */
  lemma MatchedValue(block: string, tag: string, j: nat)
    requires Matches(block, tag)(j)
    ensures j + |tag| <= |block| && ValueAfter(block[j + |tag|..]).Some?
  {
    assert MatchAt(block, tag, j);
  }

  /** The value of the field with the given label: the first place where the label, ignoring
      case, is followed by a value decides it; `None` when there is no such place. */
  function Field(block: string, tag: string): Option<string>
    requires |tag| > 0
  {
    FieldFrom(block, tag, 0)
  }

  // ---------------------------------------------------------------------------
  // One block, one rule

  /** A port as the parser hands it on: an integer, or text such as a range, a list or "Any". */
  datatype Port = Number(n: int) | Text(s: string)

  /** The rule record `parse_single_rule_block` returns. */
  datatype Rule = Rule(
    name: string,
    direction: string,
    action: string,
    protocol: string,
    enabled: Option<string>,
    port: Port,
    localPort: Option<string>,
    remotePort: Option<string>)

  /** The labels of the fields name, direction, action, protocol, local_port, remote_port and
      enabled, in the order the parser fills them. */
  const FieldTags: seq<string> := [NameTag, DirectionTag, ActionTag, ProtocolTag, LocalPortTag, RemotePortTag, EnabledTag]
  const NameTag := "Rule Name:"
  const DirectionTag := "Direction:"
  const ActionTag := "Action:"
  const ProtocolTag := "Protocol:"
  const LocalPortTag := "LocalPort:"
  const RemotePortTag := "RemotePort:"
  const EnabledTag := "Enabled:"

  /** Python truthiness of an optional string: present and not empty. */
  predicate Present(v: Option<string>) {
    v.Some? && v.value != ""
  }

  /** A port candidate the parser may pick: present, and not "any" in any case. */
  predicate Usable(v: Option<string>) {
    Present(v) && Lower(v.value) != "any"
  }

  /** The port text the parser picks: the local port, else the remote port, else "Any". */
  function ChosenPort(local: Option<string>, remote: Option<string>): (p: string)
    ensures p != ""
    ensures Usable(local) ==> p == local.value
    ensures !Usable(local) && Usable(remote) ==> p == remote.value
    ensures !Usable(local) && !Usable(remote) ==> p == "Any"
  {
    if Usable(local) then local.value
    else if Usable(remote) then remote.value
    else "Any"
  }

  /** An all-digit port text becomes an integer; any other text stays text. */
  function AsPort(p: string): (port: Port)
    ensures port.Number? <==> IsDigits(p)
    ensures port.Number? ==> port.n >= 0 && ParseInt(p) == Some(port.n)
    ensures port.Text? ==> port.s == p
  {
    if IsDigits(p) then Number(DigitsValue(p)) else Text(p)
  }

  /** The rule a block describes, or `None` when the block lacks a usable name, direction,
      action or protocol. */
  function ParseBlock(block: string): (r: Option<Rule>)
  {
    var name := Field(block, NameTag);
    var direction := Field(block, DirectionTag);
    var action := Field(block, ActionTag);
    var protocol := Field(block, ProtocolTag);
    var local := Field(block, LocalPortTag);
    var remote := Field(block, RemotePortTag);
    var enabled := Field(block, EnabledTag);
    if !(Present(name) && Present(direction) && Present(action) && Present(protocol)) then None
    else
      Some(Rule(name.value, Upper(direction.value), Upper(action.value), Upper(protocol.value),
                enabled, AsPort(ChosenPort(local, remote)), local, remote))
  }

  /** A block yields a rule exactly when its name, direction, action and protocol are all
      present and non-empty; name, enabled state and the two port fields are handed on as
      extracted, direction, action and protocol upper-cased, and the port is the chosen one. */
  lemma ParseBlockSpec(block: string)
    ensures ParseBlock(block).Some? <==>
      Present(Field(block, NameTag)) && Present(Field(block, DirectionTag))
      && Present(Field(block, ActionTag)) && Present(Field(block, ProtocolTag))
    ensures ParseBlock(block).Some? ==>
      var r := ParseBlock(block).value;
      && Some(r.name) == Field(block, NameTag)
      && r.enabled == Field(block, EnabledTag)
      && r.localPort == Field(block, LocalPortTag)
      && r.remotePort == Field(block, RemotePortTag)
      && Lower(r.direction) == Lower(Field(block, DirectionTag).value)
      && Lower(r.action) == Lower(Field(block, ActionTag).value)
      && Lower(r.protocol) == Lower(Field(block, ProtocolTag).value)
      && (forall i :: 0 <= i < |r.direction| ==> !IsLowerLetter(r.direction[i]))
      && (forall i :: 0 <= i < |r.action| ==> !IsLowerLetter(r.action[i]))
      && (forall i :: 0 <= i < |r.protocol| ==> !IsLowerLetter(r.protocol[i]))
      && r.port == AsPort(ChosenPort(Field(block, LocalPortTag), Field(block, RemotePortTag)))
  {
    if ParseBlock(block).Some? {
      UpperLower(Field(block, DirectionTag).value);
      UpperLower(Field(block, ActionTag).value);
      UpperLower(Field(block, ProtocolTag).value);
    }
  }

  /** Upper-casing keeps a string equal up to case. */
  lemma UpperLower(s: string)
    ensures Lower(Upper(s)) == Lower(s)
  {
    assert forall i :: 0 <= i < |s| ==> LowerChar(UpperChar(s[i])) == LowerChar(s[i]);
  }

  /** `parse_single_rule_block`: fills the field dictionary label by label, gives up when a
      mandatory field is missing or empty, then scans the port candidates. */
  method ParseSingleRuleBlock(block: string) returns (rule: Option<Rule>)
    ensures rule == ParseBlock(block)
  {
    var fields := ReadFields(block);
    var name, direction, action, protocol := fields[0], fields[1], fields[2], fields[3];
    var local, remote, enabled := fields[4], fields[5], fields[6];

    if !(Present(name) && Present(direction) && Present(action) && Present(protocol)) {
      return None;
    }

    var port := ChoosePort(local, remote);
    var portValue := if IsDigits(port) then Number(DigitsValue(port)) else Text(port);
    rule := Some(Rule(name.value, Upper(direction.value), Upper(action.value), Upper(protocol.value),
                      enabled, portValue, local, remote));
  }

  /** The first loop of `parse_single_rule_block`: the value of each labelled field, in label order. */
  method ReadFields(block: string) returns (fields: seq<Option<string>>)
    ensures |fields| == |FieldTags|
    ensures forall j :: 0 <= j < |FieldTags| ==> fields[j] == Field(block, FieldTags[j])
  {
    fields := MapEach(FieldTags, tag requires |tag| > 0 => Field(block, tag));
  }

  /** The second loop of `parse_single_rule_block`: the first usable port candidate, else "Any". */
  method ChoosePort(local: Option<string>, remote: Option<string>) returns (port: string)
    ensures port == ChosenPort(local, remote)
  {
    port := "Any";
    var candidates := [local, remote];
    var i := 0;
    while i < |candidates|
      invariant 0 <= i <= |candidates|
      invariant port == "Any"
      invariant forall j :: 0 <= j < i ==> !Usable(candidates[j])
    {
      if Usable(candidates[i]) {
        port := candidates[i].value;
        break;
      }
      i := i + 1;
    }
    assert candidates[0] == local && candidates[1] == remote;
    assert port == "Any" ==> !Usable(candidates[0]) && !Usable(candidates[1]);
    assert port != "Any" ==> Usable(local) || Usable(remote);
  }

  // ---------------------------------------------------------------------------
  // Expanding a port specification

  /** `list(range(start, stop))` */
  function Range(start: int, stop: int): (r: seq<int>)
    ensures |r| == if start < stop then stop - start else 0
    ensures forall k :: 0 <= k < |r| ==> r[k] == start + k
    decreases stop - start
  {
    if start >= stop then [] else [start] + Range(start + 1, stop)
  }

  /** The range branch: `start, end = map(int, spec.split("-"))`, then `range(start, end + 1)`.
      Any `ValueError` (not exactly two parts, or a part `int()` refuses) gives the empty list. */
  function RangePorts(spec: string): seq<int> {
    var parts := Split(spec, '-');
    if |parts| != 2 then [] else RangeBetween(ParseInt(parts[0]), ParseInt(parts[1]))
  }

  /** `range(start, end + 1)` once both ends are parsed; nothing when either end failed. */
  function RangeBetween(start: Option<int>, end: Option<int>): seq<int> {
    if start.Some? && end.Some? then Range(start.value, end.value + 1) else []
  }

  /** What one stripped part of a comma list contributes: its number when it is all digits;
      the ports of the range it spells when it holds "-" (this is what the recursive call
      `extract_ports_from_rule(part)` computes, see `ExtractPortsOfRangeText`); otherwise nothing. */
  function PartPorts(part: string): seq<int> {
    if IsDigits(part) then [DigitsValue(part)]
    else if '-' in part then RangePorts(part)
    else []
  }

  /** The three cases of `PartPorts`, in the order the loop of the comma branch tests them. */
  lemma PartPortsCases(part: string)
    ensures IsDigits(part) ==> PartPorts(part) == [DigitsValue(part)]
    ensures !IsDigits(part) && '-' in part ==> PartPorts(part) == RangePorts(part)
    ensures !IsDigits(part) && '-' !in part ==> PartPorts(part) == []
  {
  }

  /** The comma branch: the parts, stripped, expanded one after another. */
  function ListPorts(parts: seq<string>): seq<int> {
    FlatMap(parts, StrippedPartPorts)
  }

  /** What one part of a comma list contributes, once stripped. */
  function StrippedPartPorts(part: string): seq<int> {
    PartPorts(Strip(part))
  }

  /** `extract_ports_from_rule(port_spec)`. The tests run in the source's order: empty, "Any" or
      0; an integer; an all-digit string; a string holding "-" (a range, checked before the comma
      test); a string holding ","; anything else, such as a service name. */
  function ExtractPorts(spec: Port): seq<int> {
    match spec
    case Number(n) => if n == 0 then [] else [n]
    case Text(s) =>
      if s == "" || s == "Any" then []
      else if IsDigits(s) then [DigitsValue(s)]
      else if '-' in s then RangePorts(s)
      else if ',' in s then ListPorts(Split(s, ','))
      else []
  }

  /** A text holding "-" goes straight to the range branch. */
  lemma ExtractPortsOfRangeText(s: string)
    requires '-' in s
    ensures ExtractPorts(Text(s)) == RangePorts(s)
  {
    assert !IsDigits(s);
    assert s != "Any";
  }

  /** The ports of a list of parts are those of its first parts followed by those of the rest. */
  lemma ListPortsAppend(a: seq<string>, b: seq<string>)
    ensures ListPorts(a + b) == ListPorts(a) + ListPorts(b)
  {
    FlatMapAppend(a, b, StrippedPartPorts);
  }

  /** One more part of a comma list processed. */
  lemma ListPortsStep(parts: seq<string>, k: nat)
    requires k < |parts|
    ensures ListPorts(parts[..k + 1]) == ListPorts(parts[..k]) + PartPorts(Strip(parts[k]))
  {
    TakeOneMore(parts, k);
    ListPortsAppend(parts[..k], [parts[k]]);
    ListPortsOne(parts[k]);
  }

  /** One part alone gives the ports of its stripped text. */
  lemma ListPortsOne(part: string)
    ensures ListPorts([part]) == PartPorts(Strip(part))
  {
    FlatMapOne(part, StrippedPartPorts);
  }

  /** The members of `range(start, stop)`. */
  lemma RangeMembers(start: int, stop: int)
    ensures forall p :: p in Range(start, stop) <==> start <= p < stop
  {
    var r := Range(start, stop);
    forall p | start <= p < stop
      ensures p in r
    {
      assert r[p - start] == p;
    }
  }

  /** A decimal string is its own single port, "0" included (whereas the integer 0 gives none). */
  lemma ExtractDecimal(n: nat)
    ensures ExtractPorts(Text(Decimal(n))) == [n]
  {
    var s := Decimal(n);
    assert s != "Any" by { assert IsDigit(s[0]); }
  }

  /** A text "a-b" of two digit strings is the range from `a` to `b` inclusive. */
  lemma RangeTextPorts(s: string, da: string, db: string, a: int, b: int)
    requires IsDigits(da) && IsDigits(db) && s == da + "-" + db
    requires ParseInt(da) == Some(a) && ParseInt(db) == Some(b)
    ensures ExtractPorts(Text(s)) == Range(a, b + 1)
  {
    RangeTextSplits(s, da, db);
    RangePortsOfParts(s, da, db, a, b);
    assert s[|da|] == '-';
    ExtractPortsOfRangeText(s);
  }

  lemma RangeTextSplits(s: string, da: string, db: string)
    requires IsDigits(da) && IsDigits(db) && s == da + "-" + db
    ensures Split(s, '-') == [da, db]
  {
    DigitsHaveNoPunctuation(da);
    DigitsHaveNoPunctuation(db);
    SplitTwo(da, db, '-');
  }

  /** Two parts that `int()` accepts give the range between them, the second one included. */
  lemma RangePortsOfParts(s: string, da: string, db: string, a: int, b: int)
    requires Split(s, '-') == [da, db] && ParseInt(da) == Some(a) && ParseInt(db) == Some(b)
    ensures RangePorts(s) == Range(a, b + 1)
  {
    var parts := Split(s, '-');
    assert parts[0] == da && parts[1] == db;
    assert RangePorts(s) == RangeBetween(ParseInt(da), ParseInt(db));
    assert RangeBetween(Some(a), Some(b)) == Range(a, b + 1);
  }

  /** "a-b" gives every port from `a` to `b` inclusive, in increasing order, and none when a > b. */
  lemma ExtractRange(a: nat, b: nat)
    ensures |ExtractPorts(Text(Decimal(a) + "-" + Decimal(b)))| == (if a <= b then b - a + 1 else 0)
    ensures forall k :: 0 <= k < |ExtractPorts(Text(Decimal(a) + "-" + Decimal(b)))| ==>
      ExtractPorts(Text(Decimal(a) + "-" + Decimal(b)))[k] == a + k
    ensures forall p :: p in ExtractPorts(Text(Decimal(a) + "-" + Decimal(b))) <==> a <= p <= b
  {
    var s := Decimal(a) + "-" + Decimal(b);
    ParseIntOfDecimal(a);
    ParseIntOfDecimal(b);
    RangeTextPorts(s, Decimal(a), Decimal(b), a, b);
    RangeFacts(ExtractPorts(Text(s)), a, b);
  }

  /** The facts about `range(a, b + 1)` the range branch hands on. */
  lemma RangeFacts(ports: seq<int>, a: int, b: int)
    requires ports == Range(a, b + 1)
    ensures |ports| == (if a <= b then b - a + 1 else 0)
    ensures forall k :: 0 <= k < |ports| ==> ports[k] == a + k
    ensures forall p :: p in ports <==> a <= p <= b
  {
    RangeMembers(a, b + 1);
  }

  /** The range test comes before the list test, so a comma list holding a range, such as
      "80,1000-1002", goes to the range branch, where `int()` meets the comma: it gives no ports
      at all, and the list loop's own range case is never reached. */
  lemma CommaListWithRange(s: string)
    requires ',' in s && '-' in s
    ensures ExtractPorts(Text(s)) == []
  {
    ExtractPortsOfRangeText(s);
    var parts := Split(s, '-');
    if |parts| == 2 {
      SplitJoin(s, '-');
      TwoPartsJoin(parts, '-');
      CommaInOnePart(parts[0], parts[1], s);
    }
  }

  /** Joining two parts puts the separator between them. */
  lemma TwoPartsJoin(parts: seq<string>, sep: char)
    requires |parts| == 2
    ensures Join(parts, sep) == parts[0] + [sep] + parts[1]
  {
    assert parts[1..] == [parts[1]];
  }

  /** When "a-b" holds a comma, `int()` refuses `a` or `b`. */
  lemma CommaInOnePart(a: string, b: string, s: string)
    requires s == a + ['-'] + b && ',' in s
    ensures ParseInt(a) == None || ParseInt(b) == None
  {
    var i :| 0 <= i < |s| && s[i] == ',';
    if i < |a| {
      assert a[i] == ',';
      ParseIntRejects(a, ',');
    } else {
      assert b[i - |a| - 1] == ',';
      ParseIntRejects(b, ',');
    }
  }

  /** A part of a comma list that is all digits once stripped, and the number it spells. */
  predicate NumberPart(part: string, p: int) {
    IsDigits(Strip(part)) && p == DigitsValue(Strip(part))
  }

  /** A comma list without ranges yields, in order, the number of each part that is all digits
      once stripped; other parts are skipped. */
  lemma {:induction false} ListPortsWithoutRanges(parts: seq<string>)
    requires forall k :: 0 <= k < |parts| ==> '-' !in parts[k]
    ensures forall p :: p in ListPorts(parts) <==> exists k :: 0 <= k < |parts| && NumberPart(parts[k], p)
  {
    if parts != [] {
      var rest := parts[1..];
      assert forall p :: p in ListPorts(rest) <==> exists k :: 0 <= k < |rest| && NumberPart(rest[k], p) by {
        ListPortsWithoutRanges(rest);
      }
      assert forall p :: p in PartPorts(Strip(parts[0])) <==> NumberPart(parts[0], p) by {
        PartPortsWithoutRange(parts[0]);
      }
      assert ListPorts(parts) == PartPorts(Strip(parts[0])) + ListPorts(rest);
      forall p | p in ListPorts(parts)
        ensures exists k :: 0 <= k < |parts| && NumberPart(parts[k], p)
      {
        if !NumberPart(parts[0], p) {
          var k :| 0 <= k < |rest| && NumberPart(rest[k], p);
          assert parts[k + 1] == rest[k];
        }
      }
      forall p | exists k :: 0 <= k < |parts| && NumberPart(parts[k], p)
        ensures p in ListPorts(parts)
      {
        var k :| 0 <= k < |parts| && NumberPart(parts[k], p);
        if k > 0 {
          assert rest[k - 1] == parts[k];
        }
      }
    }
  }

  /** A part without "-" contributes its number when it is all digits once stripped, else nothing. */
  lemma PartPortsWithoutRange(part: string)
    requires '-' !in part
    ensures forall p :: p in PartPorts(Strip(part)) <==> NumberPart(part, p)
  {
    assert '-' !in Strip(part) by {
      if '-' in Strip(part) { StripKeepsOnly(part, '-'); }
    }
  }

  /** Stripping adds no character. */
  lemma StripKeepsOnly(s: string, c: char)
    requires c in Strip(s)
    ensures c in s
  {
    var r := Strip(s);
    var t := StripStart(s);
    var i :| 0 <= i < |r| && r[i] == c;
    assert t[i] == c;
    assert s[|s| - |t| + i] == c;
  }

  /** "a,b" gives the two ports `a` and `b`, in that order. */
  lemma ExtractTwoNumberList(a: nat, b: nat)
    ensures ExtractPorts(Text(Decimal(a) + "," + Decimal(b))) == [a, b]
  {
    var da, db := Decimal(a), Decimal(b);
    var s := da + "," + db;
    DigitsHaveNoPunctuation(da);
    DigitsHaveNoPunctuation(db);
    assert s[|da|] == ',';
    assert '-' !in s;
    ExtractPortsOfListText(s);
    SplitTwo(da, db, ',');
    ListPortsOfTwoNumbers(da, db);
  }

  lemma DigitsHaveNoPunctuation(d: string)
    requires IsDigits(d)
    ensures ',' !in d && '-' !in d
  {
    assert forall i :: 0 <= i < |d| ==> IsDigit(d[i]);
  }

  /** A text holding "," and no "-" that is not all digits goes to the list branch. */
  lemma ExtractPortsOfListText(s: string)
    requires ',' in s && '-' !in s
    ensures ExtractPorts(Text(s)) == ListPorts(Split(s, ','))
  {
    assert !IsDigits(s);
    assert s != "Any";
  }

  lemma ListPortsOfTwoNumbers(da: string, db: string)
    requires IsDigits(da) && IsDigits(db)
    ensures ListPorts([da, db]) == [DigitsValue(da), DigitsValue(db)]
  {
    StripDigits(da);
    StripDigits(db);
    assert [da, db][1..] == [db] && [db][1..] == [];
    assert PartPorts(da) == [DigitsValue(da)];
    assert ListPorts([db]) == PartPorts(db) + ListPorts([]);
  }

  /** "Any", a service name, and the two zeros: the integer 0 gives no port, the text "0" one. */
  lemma ExtractOtherExamples()
    ensures ExtractPorts(Text("Any")) == []
    ensures ExtractPorts(Text("http")) == []
    ensures ExtractPorts(Number(0)) == []
    ensures ExtractPorts(Text("0")) == [0]
  {
    assert ExtractPorts(Text("http")) == [] by {
      assert !IsDigit("http"[0]);
      assert '-' !in "http" && ',' !in "http";
    }
    assert ExtractPorts(Text("0")) == [0] by {
      assert Decimal(0) == "0";
      ExtractDecimal(0);
    }
  }

  /** The size `extract_ports_from_rule` recurses on. */
  function SpecSize(spec: Port): nat {
    match spec
    case Number(_) => 0
    case Text(s) => |s|
  }

  /** `extract_ports_from_rule` as the source writes it: a chain of tests, with a loop that
      accumulates the ports of a comma list and calls itself on a part that holds "-". */
  method ExtractPortsFromRule(spec: Port) returns (ports: seq<int>)
    ensures ports == ExtractPorts(spec)
    decreases SpecSize(spec), 1
  {
    if spec == Text("") || spec == Text("Any") || spec == Number(0) {
      return [];
    }
    if spec.Number? {
      return [spec.n];
    }
    var s := spec.s;
    if IsDigits(s) {
      return [DigitsValue(s)];
    }
    if '-' in s {
      return RangePorts(s);
    }
    if ',' in s {
      ports := CommaListPorts(s);
      return;
    }
    return [];
  }

  /** The loop of the comma branch of `extract_ports_from_rule`: each part is stripped, and its
      number, or the ports of the range it spells (by the recursive call), are appended. */
  method CommaListPorts(s: string) returns (ports: seq<int>)
    requires ',' in s
    ensures ports == ListPorts(Split(s, ','))
    decreases |s|, 0
  {
    ports := [];
    var parts := Split(s, ',');
    SplitPiecesShorter(s, ',');
    for k := 0 to |parts|
      invariant ports == ListPorts(parts[..k])
    {
      var part := Strip(parts[k]);
      var more: seq<int> := [];
      PartPortsCases(part);
      if IsDigits(part) {
        more := [DigitsValue(part)];
      } else if '-' in part {
        more := ExtractPortsFromRule(Text(part));
        ExtractPortsOfRangeText(part);
      }
      assert more == PartPorts(part);
      ListPortsStep(parts, k);
      ports := ports + more;
    }
    assert parts[..|parts|] == parts;
  }

  // ---------------------------------------------------------------------------
  // Filtering

  /** `{str(p) for p in ports_filter}` */
  function PortStrings(portsFilter: seq<int>): set<string> {
    set p | p in portsFilter :: IntStr(p)
  }

  /** `(rule.get("enabled") or "").lower()` */
  function EnabledText(rule: Rule): string {
    match rule.enabled
    case None => ""
    case Some(e) => Lower(e)
  }

  /** Whether `parse_firewall_output` keeps a parsed rule: `enabled_only` needs "yes";
      `exclude_any_ports` drops port "Any"; a non-empty port filter lets "Any" rules through and
      needs one of the other rules' extracted ports, as a decimal string, to be in the filter. */
  predicate Keep(rule: Rule, portsFilter: seq<int>, enabledOnly: bool, excludeAnyPorts: bool) {
    && (enabledOnly ==> EnabledText(rule) == "yes")
    && (excludeAnyPorts ==> rule.port != Text("Any"))
    && (|portsFilter| > 0 && rule.port != Text("Any") ==>
          exists p :: p in ExtractPorts(rule.port) && IntStr(p) in PortStrings(portsFilter))
  }

  /** The rules the blocks describe, before filtering, in block order. */
  function ParsedRules(blocks: seq<string>): seq<Rule> {
    if blocks == [] then []
    else
      var rest := ParsedRules(blocks[1..]);
      if !Contains(blocks[0], RuleMarker) then rest
      else
        match ParseBlock(blocks[0])
        case None => rest
        case Some(r) => [r] + rest
  }

  /** The kept rules, in their original order. */
  function FilterRules(rules: seq<Rule>, portsFilter: seq<int>, enabledOnly: bool, excludeAnyPorts: bool): seq<Rule> {
    if rules == [] then []
    else
      var rest := FilterRules(rules[1..], portsFilter, enabledOnly, excludeAnyPorts);
      if Keep(rules[0], portsFilter, enabledOnly, excludeAnyPorts) then [rules[0]] + rest else rest
  }

  /** What `parse_firewall_output` returns. */
  function ParseOutput(output: string, portsFilter: seq<int>, enabledOnly: bool, excludeAnyPorts: bool): seq<Rule> {
    FilterRules(ParsedRules(SplitBlocks(output)), portsFilter, enabledOnly, excludeAnyPorts)
  }

  /** Every parsed rule is the rule of a block that holds the marker. */
  lemma {:induction false} ParsedRulesFromBlocks(blocks: seq<string>)
    ensures |ParsedRules(blocks)| <= |blocks|
    ensures forall r :: r in ParsedRules(blocks) ==>
      exists k :: 0 <= k < |blocks| && Contains(blocks[k], RuleMarker) && ParseBlock(blocks[k]) == Some(r)
  {
    if blocks != [] {
      var rest := blocks[1..];
      assert |ParsedRules(rest)| <= |rest| && forall r :: r in ParsedRules(rest) ==>
        exists k :: 0 <= k < |rest| && Contains(rest[k], RuleMarker) && ParseBlock(rest[k]) == Some(r) by {
        ParsedRulesFromBlocks(rest);
      }
      forall r | r in ParsedRules(blocks)
        ensures exists k :: 0 <= k < |blocks| && Contains(blocks[k], RuleMarker) && ParseBlock(blocks[k]) == Some(r)
      {
        if r in ParsedRules(rest) {
          var k :| 0 <= k < |rest| && Contains(rest[k], RuleMarker) && ParseBlock(rest[k]) == Some(r);
          assert blocks[k + 1] == rest[k];
        }
      }
    }
  }

  /** Filtering keeps exactly the rules `Keep` accepts, and never adds any. */
  lemma {:induction false} FilterRulesMembers(rules: seq<Rule>, portsFilter: seq<int>, enabledOnly: bool, excludeAnyPorts: bool)
    ensures |FilterRules(rules, portsFilter, enabledOnly, excludeAnyPorts)| <= |rules|
    ensures forall r :: r in FilterRules(rules, portsFilter, enabledOnly, excludeAnyPorts) <==>
      r in rules && Keep(r, portsFilter, enabledOnly, excludeAnyPorts)
  {
    if rules != [] {
      FilterRulesMembers(rules[1..], portsFilter, enabledOnly, excludeAnyPorts);
      assert forall r :: r in rules <==> r == rules[0] || r in rules[1..];
    }
  }

  /** Rules are filtered one at a time: filtering two stretches of rules gives the kept rules
      of the first followed by those of the second, so order and repeats are preserved. */
  lemma {:induction false} FilterRulesAppend(a: seq<Rule>, b: seq<Rule>, portsFilter: seq<int>, enabledOnly: bool, excludeAnyPorts: bool)
    ensures FilterRules(a + b, portsFilter, enabledOnly, excludeAnyPorts)
      == FilterRules(a, portsFilter, enabledOnly, excludeAnyPorts) + FilterRules(b, portsFilter, enabledOnly, excludeAnyPorts)
  {
    if a == [] {
      assert a + b == b;
    } else {
      assert (a + b)[0] == a[0];
      assert (a + b)[1..] == a[1..] + b;
      FilterRulesAppend(a[1..], b, portsFilter, enabledOnly, excludeAnyPorts);
      var here := if Keep(a[0], portsFilter, enabledOnly, excludeAnyPorts) then [a[0]] else [];
      var restA := FilterRules(a[1..], portsFilter, enabledOnly, excludeAnyPorts);
      var restB := FilterRules(b, portsFilter, enabledOnly, excludeAnyPorts);
      assert here + (restA + restB) == (here + restA) + restB;
    }
  }

  /** A single rule is kept on its own exactly when `Keep` accepts it. */
  lemma FilterRulesOne(r: Rule, portsFilter: seq<int>, enabledOnly: bool, excludeAnyPorts: bool)
    ensures FilterRules([r], portsFilter, enabledOnly, excludeAnyPorts)
      == if Keep(r, portsFilter, enabledOnly, excludeAnyPorts) then [r] else []
  {
    assert [r][1..] == [];
  }

  /** When every rule is kept, filtering changes nothing. */
  lemma {:induction false} FilterRulesAllKept(rules: seq<Rule>, portsFilter: seq<int>, enabledOnly: bool, excludeAnyPorts: bool)
    requires forall r :: r in rules ==> Keep(r, portsFilter, enabledOnly, excludeAnyPorts)
    ensures FilterRules(rules, portsFilter, enabledOnly, excludeAnyPorts) == rules
  {
    if rules != [] {
      assert rules[0] in rules;
      assert forall r :: r in rules[1..] ==> r in rules;
      FilterRulesAllKept(rules[1..], portsFilter, enabledOnly, excludeAnyPorts);
      assert [rules[0]] + rules[1..] == rules;
    }
  }

  /** Filtering twice with the same settings is filtering once. */
  lemma FilterRulesIdempotent(rules: seq<Rule>, portsFilter: seq<int>, enabledOnly: bool, excludeAnyPorts: bool)
    ensures var once := FilterRules(rules, portsFilter, enabledOnly, excludeAnyPorts);
      FilterRules(once, portsFilter, enabledOnly, excludeAnyPorts) == once
  {
    FilterRulesMembers(rules, portsFilter, enabledOnly, excludeAnyPorts);
    FilterRulesAllKept(FilterRules(rules, portsFilter, enabledOnly, excludeAnyPorts), portsFilter, enabledOnly, excludeAnyPorts);
  }

  /** Without a port filter and with both flags off, every parsed rule is returned. */
  lemma ParseOutputUnfiltered(output: string)
    ensures ParseOutput(output, [], false, false) == ParsedRules(SplitBlocks(output))
  {
    FilterRulesAllKept(ParsedRules(SplitBlocks(output)), [], false, false);
  }

  /** Comparing ports as decimal strings is comparing them as numbers. */
  lemma PortStringsMembers(portsFilter: seq<int>, p: int)
    ensures IntStr(p) in PortStrings(portsFilter) <==> p in portsFilter
  {
    if IntStr(p) in PortStrings(portsFilter) {
      var q :| q in portsFilter && IntStr(q) == IntStr(p);
      IntStrInjective(p, q);
    }
  }

  /** With a non-empty port filter, a rule whose port is not "Any" is kept exactly when it
      passes the enabled test and one of its extracted ports is in the filter. */
  lemma KeepWithPortFilter(rule: Rule, portsFilter: seq<int>, enabledOnly: bool, excludeAnyPorts: bool)
    requires |portsFilter| > 0 && rule.port != Text("Any")
    ensures Keep(rule, portsFilter, enabledOnly, excludeAnyPorts) <==>
      (enabledOnly ==> EnabledText(rule) == "yes")
      && exists p :: p in ExtractPorts(rule.port) && p in portsFilter
  {
    forall p | p in ExtractPorts(rule.port)
      ensures IntStr(p) in PortStrings(portsFilter) <==> p in portsFilter
    {
      PortStringsMembers(portsFilter, p);
    }
  }

  /** A rule on the port list "a,b" passes the filter [b] and fails a filter naming neither. */
  lemma ListRuleFiltered(rule: Rule, a: nat, b: nat, c: int)
    requires rule.port == Text(Decimal(a) + "," + Decimal(b))
    requires c != a && c != b
    ensures Keep(rule, [b], false, false)
    ensures !Keep(rule, [c], false, false)
  {
    ExtractTwoNumberList(a, b);
    assert rule.port != Text("Any") by {
      assert |Decimal(a) + "," + Decimal(b)| != 3 || Decimal(a) + "," + Decimal(b) != "Any";
    }
    KeepWithPortFilter(rule, [b], false, false);
    KeepWithPortFilter(rule, [c], false, false);
    assert b in ExtractPorts(rule.port);
  }

  /** What one block contributes to the result: its rule when it has the marker, parses and is kept. */
  function KeptFromBlock(block: string, portsFilter: seq<int>, enabledOnly: bool, excludeAnyPorts: bool): seq<Rule> {
    if !Contains(block, RuleMarker) then []
    else
      match ParseBlock(block)
      case None => []
      case Some(r) => if Keep(r, portsFilter, enabledOnly, excludeAnyPorts) then [r] else []
  }

  /** The blocks' contributions one after another, which is the loop's view of the result. */
  function KeptFromBlocks(blocks: seq<string>, portsFilter: seq<int>, enabledOnly: bool, excludeAnyPorts: bool): seq<Rule> {
    if blocks == [] then []
    else KeptFromBlock(blocks[0], portsFilter, enabledOnly, excludeAnyPorts)
         + KeptFromBlocks(blocks[1..], portsFilter, enabledOnly, excludeAnyPorts)
  }

  /** Filtering block by block is filtering the parsed rules. */
  lemma {:induction false} KeptFromBlocksIsFiltered(blocks: seq<string>, portsFilter: seq<int>, enabledOnly: bool, excludeAnyPorts: bool)
    ensures KeptFromBlocks(blocks, portsFilter, enabledOnly, excludeAnyPorts)
         == FilterRules(ParsedRules(blocks), portsFilter, enabledOnly, excludeAnyPorts)
  {
    if blocks != [] {
      var b := blocks[0];
      var rest := ParsedRules(blocks[1..]);
      var tail := KeptFromBlocks(blocks[1..], portsFilter, enabledOnly, excludeAnyPorts);
      assert tail == FilterRules(rest, portsFilter, enabledOnly, excludeAnyPorts) by {
        KeptFromBlocksIsFiltered(blocks[1..], portsFilter, enabledOnly, excludeAnyPorts);
      }
      assert KeptFromBlocks(blocks, portsFilter, enabledOnly, excludeAnyPorts)
          == KeptFromBlock(b, portsFilter, enabledOnly, excludeAnyPorts) + tail;
      if Contains(b, RuleMarker) && ParseBlock(b).Some? {
        var r := ParseBlock(b).value;
        assert ParsedRules(blocks) == [r] + rest;
        FilterRulesCons(r, rest, portsFilter, enabledOnly, excludeAnyPorts);
      } else {
        assert ParsedRules(blocks) == rest;
      }
    }
  }

  /** Filtering a list that starts with `r`: `r` is kept or dropped, then the rest is filtered. */
  lemma FilterRulesCons(r: Rule, rest: seq<Rule>, portsFilter: seq<int>, enabledOnly: bool, excludeAnyPorts: bool)
    ensures FilterRules([r] + rest, portsFilter, enabledOnly, excludeAnyPorts)
         == (if Keep(r, portsFilter, enabledOnly, excludeAnyPorts) then [r] else [])
            + FilterRules(rest, portsFilter, enabledOnly, excludeAnyPorts)
  {
    assert ([r] + rest)[1..] == rest;
  }

  /** One more block processed by the loop of `ParseFirewallOutput`. */
  lemma KeptStep(blocks: seq<string>, k: nat, before: seq<Rule>, after: seq<Rule>,
                 portsFilter: seq<int>, enabledOnly: bool, excludeAnyPorts: bool)
    requires k < |blocks|
    requires before + KeptFromBlocks(blocks[k..], portsFilter, enabledOnly, excludeAnyPorts)
          == KeptFromBlocks(blocks, portsFilter, enabledOnly, excludeAnyPorts)
    requires after == before + KeptFromBlock(blocks[k], portsFilter, enabledOnly, excludeAnyPorts)
    ensures after + KeptFromBlocks(blocks[k + 1..], portsFilter, enabledOnly, excludeAnyPorts)
         == KeptFromBlocks(blocks, portsFilter, enabledOnly, excludeAnyPorts)
  {
    var rest := blocks[k..];
    assert rest[0] == blocks[k] && rest[1..] == blocks[k + 1..];
    var here := KeptFromBlock(blocks[k], portsFilter, enabledOnly, excludeAnyPorts);
    var tail := KeptFromBlocks(blocks[k + 1..], portsFilter, enabledOnly, excludeAnyPorts);
    assert KeptFromBlocks(rest, portsFilter, enabledOnly, excludeAnyPorts) == here + tail;
    RuleConcatAssoc(before, here, tail);
  }

  lemma RuleConcatAssoc(a: seq<Rule>, b: seq<Rule>, c: seq<Rule>)
    ensures (a + b) + c == a + (b + c)
  {
  }

  /** A non-empty port filter gives a non-empty set of port strings. */
  lemma PortStringsNonEmpty(portsFilter: seq<int>)
    ensures |PortStrings(portsFilter)| > 0 <==> |portsFilter| > 0
  {
    if |portsFilter| > 0 {
      assert IntStr(portsFilter[0]) in PortStrings(portsFilter);
    }
  }

  /** `parse_firewall_output(output, ports_filter, enabled_only, exclude_any_ports)`; a missing
      port filter is the empty one. */
  method ParseFirewallOutput(output: string, portsFilter: seq<int>, enabledOnly: bool, excludeAnyPorts: bool)
    returns (rules: seq<Rule>)
    ensures rules == ParseOutput(output, portsFilter, enabledOnly, excludeAnyPorts)
  {
    rules := [];
    var portsSet := if |portsFilter| > 0 then PortStrings(portsFilter) else {};
    PortStringsNonEmpty(portsFilter);
    var blocks := SplitBlocks(output);
    for k := 0 to |blocks|
      invariant rules + KeptFromBlocks(blocks[k..], portsFilter, enabledOnly, excludeAnyPorts)
             == KeptFromBlocks(blocks, portsFilter, enabledOnly, excludeAnyPorts)
    {
      var block := blocks[k];
      ghost var before := rules;
      var keep := false;
      var parsed: Option<Rule> := None;
      if Contains(block, RuleMarker) {
        parsed := ParseSingleRuleBlock(block);
      }
      if parsed.Some? {
        var rule := parsed.value;
        keep := true;
        if enabledOnly && EnabledText(rule) != "yes" {
          keep := false;
        }
        var rulePort := rule.port;
        if keep && excludeAnyPorts && rulePort == Text("Any") {
          keep := false;
        }
        if keep && |portsSet| > 0 && rulePort != Text("Any") {
          var rulePorts := ExtractPortsFromRule(rulePort);
          if !(exists p :: p in rulePorts && IntStr(p) in portsSet) {
            keep := false;
          }
        }
        assert keep == Keep(rule, portsFilter, enabledOnly, excludeAnyPorts);
        if keep {
          rules := rules + [rule];
        }
      }
      assert rules == before + KeptFromBlock(block, portsFilter, enabledOnly, excludeAnyPorts);
      KeptStep(blocks, k, before, rules, portsFilter, enabledOnly, excludeAnyPorts);
    }
    assert blocks[|blocks|..] == [];
    KeptFromBlocksIsFiltered(blocks, portsFilter, enabledOnly, excludeAnyPorts);
  }
}
