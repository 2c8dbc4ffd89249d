# host-inspector core, modelled in Dafny

host-inspector collects facts about the machine it runs on: OS, CPU, GPU, displays, network identity and
firewall rules. Most of it runs a platform command (`netsh`, `ufw`, `system_profiler`, PowerShell,
`sw_vers`) and turns the command's text into dictionaries. This project models that parsing and
normalisation as Dafny functions, methods and lemmas:

- **Windows firewall** (`FirewallWindows`). `netsh advfirewall firewall show rule` output is cut into
  `Rule Name:` blocks. Seven labelled fields are read from each block with a case-insensitive search.
  A representative port is chosen and blocks without a name, direction, action or protocol are
  dropped. Port specs are expanded to integer lists: a number, an `A-B` range, a comma list or a
  service name. Rules are filtered by enabled state, by "Any" ports and by a port filter.
- **Linux firewall** (`FirewallLinux`). In `ufw status verbose` output the parser finds the
  `To / Action / From` header. Each data row two lines further on becomes a rule built from its
  whitespace tokens.
- **Platform dispatch** (`ImportUtils`). This is the table from `sys.platform` to the `.mac`,
  `.windows` or `.linux` sub-module, and the `ImportError` raised for any other platform.
- **String helpers.** The two `clean_name` cleaners (`CpuUtils`, `GpuUtils`), and `extract_version`
  and `formatted_number` (`StringUtils`).
- **macOS edition lookup** (`OsMac`). An exact key is tried first, then the major version.
- **macOS display parser** (`DisplayMac`). It reads the decoded `system_profiler` JSON: the
  resolution regex, `_to_int_maybe`, and the nested loops of `_parse_display_output`.
- **Windows GPU normaliser** (`GpuWindows`). It reads the decoded `Win32_VideoController` JSON and
  builds one adapter record per controller.
- **Network identity** (`Network`):
  - the node address as an IEEE 802 EUI-48 colon-hex string;
  - the interface that owns an IP address;
  - that interface's MAC and IPv6 addresses.

Three support modules hold the Python semantics the code relies on:

- `PyStr`: `str` methods over ASCII text.
- `Json`: decoded JSON values with Python truthiness, `dict.get`, iteration, `str()` and `repr()`.
- `Wrappers`: `Option`, `Result`, and the generic loop shapes (filter-map, flat-map and map) that the
  imperative loops are proved against.

Where the source loops and appends, the model is a method with a loop, proved equal to a
specification function. Properties of the behaviour are lemmas about that function. Command output
and `json.loads` are parameters of the model.

## Model

| member | source | states |
|---|---|---|
| FirewallWindows.SplitBlocks | src/host_inspector/firewall/windows.py:41 | `re.split(r"\n(?=Rule Name:)")` always yields at least one block |
| FirewallWindows.SplitBlocksJoin | src/host_inspector/firewall/windows.py:41 | joining the blocks back with the newlines removed at the cuts gives the output again: nothing is lost or reordered |
| FirewallWindows.SplitBlocksMarked | src/host_inspector/firewall/windows.py:41 | every block after the first begins with the case-sensitive `Rule Name:` |
| FirewallWindows.SplitBlocksUncut | src/host_inspector/firewall/windows.py:41 | no block contains a newline followed by `Rule Name:`, so every cut point was used |
| FirewallWindows.FirstBlockHoldsMarker | src/host_inspector/firewall/windows.py:41-44 | output that starts with `Rule Name:` has a first block that starts with it too, so that block is not skipped |
| FirewallWindows.ValueAfterSpec | src/host_inspector/firewall/windows.py:113-125 | the `\s*(.+?)(?:\n\|$)` tail matches exactly when the rest is not only line feeds; the captured and stripped value holds no newline, is already trimmed, and occurs in the rest |
| FirewallWindows.ValueInLine | src/host_inspector/firewall/windows.py:113-125 | after leading whitespace (newlines included) is skipped, the value is the trimmed text up to the next newline and sits at that offset |
| FirewallWindows.FieldFromFirstMatch | src/host_inspector/firewall/windows.py:124-125 | the field's value comes from the first index where the label (ignoring case) is followed by a value; earlier label positions without a value are skipped, as the regex backtracks |
| FirewallWindows.FieldFromNoMatch | src/host_inspector/firewall/windows.py:124-125 | the field is `None` exactly when the pattern matches at no index |
| FirewallWindows.ChosenPort | src/host_inspector/firewall/windows.py:132-138 | the port is the local port when it is present, non-empty and not "any" in any case; otherwise the remote port under the same test; otherwise "Any" |
| FirewallWindows.AsPort | src/host_inspector/firewall/windows.py:140-143 | an all-digit port becomes the integer it spells; any other port stays text |
| FirewallWindows.ParseBlockSpec | src/host_inspector/firewall/windows.py:127-154 | a block gives a rule iff name, direction, action and protocol are all present and non-empty; name, enabled and both port fields are passed on unchanged; direction, action and protocol are upper-cased and equal to the extracted text up to case; the port is the chosen one |
| FirewallWindows.ParseSingleRuleBlock | src/host_inspector/firewall/windows.py:108-154 | the method (field loop, then the candidate loop with `break`) returns exactly the rule the specification `ParseBlock` describes |
| FirewallWindows.ReadFields | src/host_inspector/firewall/windows.py:112-125 | the field loop fills one entry per label, in table order, each the value the search finds for that label |
| FirewallWindows.ChoosePort | src/host_inspector/firewall/windows.py:132-138 | the loop over `[local_port, remote_port]` with `break` returns the chosen port |
| FirewallWindows.Range | src/host_inspector/firewall/windows.py:89 | `range(start, stop)` has `max(0, stop - start)` elements and its k-th element is `start + k` |
| FirewallWindows.RangeMembers | src/host_inspector/firewall/windows.py:89 | p is in `range(start, stop)` iff `start <= p < stop` |
| FirewallWindows.PartPortsCases | src/host_inspector/firewall/windows.py:97-101 | a stripped comma-list part contributes its number when it is all digits, the ports of its range when it holds "-", and nothing otherwise |
| FirewallWindows.ExtractPortsOfRangeText | src/host_inspector/firewall/windows.py:86-91 | a text spec holding "-" takes the range branch before any comma test |
| FirewallWindows.ListPortsAppend | src/host_inspector/firewall/windows.py:95-102 | the ports of a list of parts are the ports of its first half followed by those of its second half |
| FirewallWindows.ListPortsStep | src/host_inspector/firewall/windows.py:96-101 | one more part appends exactly that part's ports |
| FirewallWindows.ExtractDecimal | src/host_inspector/firewall/windows.py:82-83 | the decimal text of n gives `[n]` |
| FirewallWindows.RangeTextPorts | src/host_inspector/firewall/windows.py:86-89 | "A-B" with digit parts gives `range(A, B + 1)` |
| FirewallWindows.RangeTextSplits | src/host_inspector/firewall/windows.py:88 | "A-B" with digit parts splits into exactly `[A, B]` |
| FirewallWindows.RangePortsOfParts | src/host_inspector/firewall/windows.py:88-89 | when the split gives exactly two integers a and b, the range branch gives `range(a, b + 1)` |
| FirewallWindows.ExtractRange | src/host_inspector/firewall/windows.py:86-89 | "a-b" gives the inclusive list a..b: b - a + 1 ports in ascending order, and none when a > b |
| FirewallWindows.CommaListWithRange | src/host_inspector/firewall/windows.py:86-91 | a spec holding both "," and "-" gives `[]`, because the range branch's unpacking or `int()` fails (e.g. "80,1000-1002") |
| FirewallWindows.CommaInOnePart | src/host_inspector/firewall/windows.py:88-91 | when one side of the "-" holds a comma, `int()` rejects that side |
| FirewallWindows.ListPortsWithoutRanges | src/host_inspector/firewall/windows.py:94-102 | without ranges, a comma list yields exactly the numbers of its all-digit parts after stripping; other parts are ignored |
| FirewallWindows.PartPortsWithoutRange | src/host_inspector/firewall/windows.py:97-99 | a part without "-" contributes p iff its stripped text is all digits and spells p |
| FirewallWindows.ExtractTwoNumberList | src/host_inspector/firewall/windows.py:94-102 | "a,b" gives `[a, b]` |
| FirewallWindows.ExtractPortsOfListText | src/host_inspector/firewall/windows.py:94-102 | a spec with "," and no "-" gives the concatenated ports of its comma-separated parts |
| FirewallWindows.ListPortsOfTwoNumbers | src/host_inspector/firewall/windows.py:96-99 | two digit parts give their two numbers in order |
| FirewallWindows.ExtractOtherExamples | src/host_inspector/firewall/windows.py:74-105 | "Any", a service name and the integer 0 give `[]`; "0" gives `[0]` |
| FirewallWindows.ExtractPortsFromRule | src/host_inspector/firewall/windows.py:72-105 | the method follows the chain of tests in source order, with the comma loop and its recursive call, and returns the ports of the specification `ExtractPorts` |
| FirewallWindows.CommaListPorts | src/host_inspector/firewall/windows.py:94-102 | the comma loop accumulates the ports of the parts in order |
| FirewallWindows.ParsedRulesFromBlocks | src/host_inspector/firewall/windows.py:42-48 | at most one rule per block; every parsed rule comes from a block that contains `Rule Name:` |
| FirewallWindows.FilterRulesMembers | src/host_inspector/firewall/windows.py:50-67 | the filtered rules are no more than the parsed ones; a rule is kept iff it is parsed and passes the enabled, "Any" and port tests |
| FirewallWindows.FilterRulesAppend | src/host_inspector/firewall/windows.py:50-67 | filtering a concatenation filters each part and concatenates the results, so the kept rules stay in order and keep their multiplicity |
| FirewallWindows.FilterRulesAllKept | src/host_inspector/firewall/windows.py:50-67 | when every rule passes, filtering returns them all in the same order |
| FirewallWindows.FilterRulesIdempotent | src/host_inspector/firewall/windows.py:50-67 | filtering an already filtered list changes nothing |
| FirewallWindows.ParseOutputUnfiltered | src/host_inspector/firewall/windows.py:35-69 | with no port filter and both flags off, the result is every parsed rule in block order |
| FirewallWindows.PortStringsMembers | src/host_inspector/firewall/windows.py:61-64 | the decimal text of p is in `{str(p) for p in ports_filter}` iff p is in the filter |
| FirewallWindows.PortStringsNonEmpty | src/host_inspector/firewall/windows.py:39 | the port set is non-empty iff the filter is non-empty |
| FirewallWindows.KeepWithPortFilter | src/host_inspector/firewall/windows.py:50-65 | with a non-empty filter and a port other than "Any", a rule is kept iff it passes the enabled test and some extracted port's text is in the filter |
| FirewallWindows.ListRuleFiltered | src/host_inspector/firewall/windows.py:61-65 | a rule on port "a,b" passes the filter `[b]` and fails a filter naming neither a nor b |
| FirewallWindows.KeptFromBlocksIsFiltered | src/host_inspector/firewall/windows.py:42-67 | skipping and filtering block by block equals parsing every block and then filtering, in order |
| FirewallWindows.FilterRulesCons | src/host_inspector/firewall/windows.py:50-67 | filtering a one-rule list keeps that rule iff it passes |
| FirewallWindows.ParseFirewallOutput | src/host_inspector/firewall/windows.py:35-69 | the loop over the blocks returns exactly the parsed rules that pass the filter, in order |
| FirewallLinux.HeaderFromFound | src/host_inspector/firewall/linux.py:89-92 | a header found from line i is at or after i, contains "To", "Action" and "From", and no earlier line from i does |
| FirewallLinux.HeaderFromNone | src/host_inspector/firewall/linux.py:89-95 | no header is found iff no line from i on contains all three words |
| FirewallLinux.HeaderIndexIs | src/host_inspector/firewall/linux.py:89-92 | the first header line is the one the search returns |
| FirewallLinux.FindHeader | src/host_inspector/firewall/linux.py:88-92 | the first loop returns -1 iff there is no header line, and otherwise the header's index plus 2 |
| FirewallLinux.PortOf | src/host_inspector/firewall/linux.py:122-129 | the port is the text before the first "/" (the whole token when it has none), a prefix of the token without "/" |
| FirewallLinux.ProtocolOf | src/host_inspector/firewall/linux.py:119-125 | the protocol is "ANY" when the token has no "/", and otherwise the upper-cased second "/"-segment, which holds no "/" and no lower-case letter |
| FirewallLinux.ActionOf | src/host_inspector/firewall/linux.py:132 | the action is "ALLOW" iff the second token, upper-cased, contains "ALLOW"; otherwise "DENY" |
| FirewallLinux.DirectionOf | src/host_inspector/firewall/linux.py:133-135 | the direction is "OUTBOUND" iff the third token lacks "IN" (case-sensitive) and the line contains "OUT"; otherwise "INBOUND" |
| FirewallLinux.RowRule | src/host_inspector/firewall/linux.py:100-107 | a row yields a rule iff, trimmed, it is non-empty, does not start with "--" and has at least three whitespace tokens |
| FirewallLinux.Tail | src/host_inspector/firewall/linux.py:97 | `lines[start:]`, which is empty when start is past the end |
| FirewallLinux.RowRulePortProtocol | src/host_inspector/firewall/linux.py:119-146 | an accepted row's rule has name None, enabled True, remote port "ANY", and local port and protocol taken from its first token |
| FirewallLinux.RowRuleActionDirection | src/host_inspector/firewall/linux.py:115-135 | an accepted row's action and direction come from its second and third tokens and the whole trimmed line |
| FirewallLinux.V6RowIsDeny | src/host_inspector/firewall/linux.py:115-132 | a row whose second token is "(v6)" is a DENY rule, whatever its real action |
| FirewallLinux.RowsAppend | src/host_inspector/firewall/linux.py:99-147 | the rules of two runs of rows are the rules of the first followed by those of the second: order is kept and nothing is merged |
| FirewallLinux.RowsOfOne | src/host_inspector/firewall/linux.py:99-147 | one row yields exactly one rule when accepted and none otherwise |
| FirewallLinux.RowsFromLines | src/host_inspector/firewall/linux.py:99-147 | there are no more rules than rows, and each rule is the rule of some row |
| FirewallLinux.TableRulesEmpty | src/host_inspector/firewall/linux.py:94-95 | with no header line before the last two lines the result is `[]`: there is no header, or the data would start past the end |
| FirewallLinux.TableRulesAfterHeader | src/host_inspector/firewall/linux.py:88-97 | with the first header at h, the rules are those of the rows from h + 2 on |
| FirewallLinux.ParseRows | src/host_inspector/firewall/linux.py:99-147 | the second loop returns one rule per accepted row, in order |
| FirewallLinux.ParseRow | src/host_inspector/firewall/linux.py:100-146 | the loop body for one row (trim, skip, split, build) gives the rule the specification `RowRule` describes |
| FirewallLinux.ParseFirewallOutput | src/host_inspector/firewall/linux.py:81-149 | the method returns the specification's rules for the trimmed output; the three filter arguments are accepted and never read |
| ImportUtils.ModuleName | src/host_inspector/utils/importutils.py:10-14 | every module name is relative: a "." followed by at least one character |
| ImportUtils.UnsupportedMessage | src/host_inspector/utils/importutils.py:19 | the message is "Unsupported platform: " followed by the platform identifier |
| ImportUtils.PlatformModuleName | src/host_inspector/utils/importutils.py:8-20 | a failure carries exactly the unsupported-platform message |
| ImportUtils.PlatformTable | src/host_inspector/utils/importutils.py:10-17 | the lookup succeeds iff the identifier is "darwin", "win32" or "linux", and then gives ".mac", ".windows" or ".linux" |
| ImportUtils.UnsupportedPlatform | src/host_inspector/utils/importutils.py:18-20 | any other identifier raises `ImportError` whose message ends with that identifier, with no partial result |
| ImportUtils.PlatformModuleNameInjective | src/host_inspector/utils/importutils.py:10-14 | distinct supported identifiers give distinct module names |
| ImportUtils.GetPlatformModule | src/host_inspector/utils/importutils.py:23-28 | the imported module belongs to the requesting package |
| ImportUtils.SameVariantForEveryPackage | src/host_inspector/utils/importutils.py:23-28 | every package succeeds or fails together and binds the same OS variant |
| ImportUtils.VariantMatchesTable | src/host_inspector/utils/importutils.py:23-28 | the imported variant is the one the table names, and a failure is the table's failure |
| OsMac.Major | src/host_inspector/os/mac.py:70 | the major part is the version's prefix before its first "." and holds no "." |
| OsMac.Edition | src/host_inspector/os/mac.py:39-74 | an exact key wins, then the major part is looked up, then "--"; the result is always a value of the table or "--" |
| OsMac.UnknownMarker | src/host_inspector/os/mac.py:41-74 | "--" is not an edition name, so it marks only the unknown case |
| OsMac.OsXPatchUnknown | src/host_inspector/os/mac.py:67-74 | an OS X version "10.x" that is not a key gives "--", as only "10" is tried and it is not a key |
| OsMac.MacOsPointRelease | src/host_inspector/os/mac.py:70-72 | a macOS 11-15 point release takes the edition of its major version |
| OsMac.NotAKey | src/host_inspector/os/mac.py:41-65 | a version of three or more characters whose second character is not "0" is not a key |
| OsMac.EditionExamples | src/host_inspector/os/mac.py:67-74 | "10.15" gives "Catalina", "11" "Big Sur", "14" "Sonoma" and "99" "--" |
| OsMac.PointReleaseExamples | src/host_inspector/os/mac.py:67-74 | "14.5" gives "Sonoma" and "10.15.7" gives "--" |
| CpuUtils.CleanName | src/host_inspector/cpu/utils.py:1-4 | the cleaned name is no longer than the input, has no surrounding whitespace and contains no "CPU @" |
| CpuUtils.CleanNamePlain | src/host_inspector/cpu/utils.py:3-4 | a name with no markers and no "CPU @" is only trimmed |
| CpuUtils.CleanNameDropsClock | src/host_inspector/cpu/utils.py:4 | everything from the first "CPU @" on is dropped and the rest is trimmed |
| CpuUtils.MarkersRemoved | src/host_inspector/cpu/utils.py:3 | removing every "(R)" and then every "(TM)" leaves the text around them |
| CpuUtils.CleanNameExample | src/host_inspector/cpu/utils.py:1-4 | "Intel(R) Core(TM) i7-8700 CPU @ 3.20GHz" becomes "Intel Core i7-8700" |
| GpuUtils.CleanName | src/host_inspector/gpu/utils.py:1-3 | the cleaned name is never longer than the input |
| GpuUtils.CleanNameUnmarked | src/host_inspector/gpu/utils.py:3 | a name with neither marker is returned unchanged |
| GpuUtils.CleanNameLength | src/host_inspector/gpu/utils.py:3 | the length shrinks by 3 per removed "(R)" and 4 per "(TM)" removed afterwards; it shrinks iff a marker is present |
| GpuUtils.CleanNameKeepsSpaces | src/host_inspector/gpu/utils.py:3 | surrounding spaces are kept: no trimming, unlike the CPU cleaner |
| GpuUtils.CleanNameNested | src/host_inspector/gpu/utils.py:3 | the removals run in sequence: "(T(R)M)" loses "(R)" and then the "(TM)" that this creates |
| StringUtils.Groups | src/host_inspector/utils/stringutils.py:4-5 | digits are grouped from the right: the first group has 1-3 digits and every later group exactly 3 |
| StringUtils.GroupsJoined | src/host_inspector/utils/stringutils.py:4-5 | removing the commas from the joined groups gives the digits back |
| StringUtils.FormattedNumberDigits | src/host_inspector/utils/stringutils.py:4-5 | removing the commas from `f"{n:,}"` gives the plain decimal form of n |
| StringUtils.FormattedNumberGroups | src/host_inspector/utils/stringutils.py:4-5 | the comma-separated groups of a natural number have 1-3 digits first and exactly 3 after |
| StringUtils.FormattedNumberSmall | src/host_inspector/utils/stringutils.py:4-5 | a number below 1000 in magnitude gets no comma |
| StringUtils.FormattedNumberExample | src/host_inspector/utils/stringutils.py:4-5 | 1234567 gives "1,234,567" |
| StringUtils.RunLength | src/host_inspector/utils/stringutils.py:17 | the greedy `[\d.]+` run is maximal: all its characters are digits or dots and the next one is not |
| StringUtils.FirstVersionChar | src/host_inspector/utils/stringutils.py:17 | the search starts at the first digit or dot and none comes earlier |
| StringUtils.ExtractVersion | src/host_inspector/utils/stringutils.py:16-20 | the result is "--" or a non-empty run of digits and dots |
| StringUtils.ExtractVersionNone | src/host_inspector/utils/stringutils.py:17-20 | the result is "--" iff the input holds no digit and no dot |
| StringUtils.ExtractVersionLeftmostRun | src/host_inspector/utils/stringutils.py:17-19 | the result is the leftmost maximal run of digits and dots in the input |
| StringUtils.ExtractVersionExample | src/host_inspector/utils/stringutils.py:17-19 | "macOS 14.5 (23F79)" gives "14.5" |
| StringUtils.ExtractVersionLoneDot | src/host_inspector/utils/stringutils.py:17-19 | a lone "." qualifies: "Mr. X" gives "." |
| DisplayMac.Span | src/host_inspector/display/mac.py:6 | a greedy `\s*`, `\d+` or `[\d.]+` run from i ends at the first character outside its class |
| DisplayMac.SpanRun | src/host_inspector/display/mac.py:6 | every character a greedy run passes over is in its class |
| DisplayMac.MatchTail | src/host_inspector/display/mac.py:6 | a matched optional rate is digits and dots only |
| DisplayMac.MatchRes | src/host_inspector/display/mac.py:15-17 | on a match, width and height are non-empty digit strings; which texts match is `MatchResShape` |
| DisplayMac.MatchResShape | src/host_inspector/display/mac.py:6-21 | the pattern matches a text with captures m if and only if the text cuts into optional whitespace, digits, whitespace, "x" or "X", whitespace, digits, then either only whitespace or whitespace, "@", whitespace, digits and dots, whitespace, "Hz" in any case and whitespace, and m holds exactly the cut-out width, height and rate |
| DisplayMac.MatchResOfCuts | src/host_inspector/display/mac.py:6 | every text of that shape matches, capturing the pieces between its cuts |
| DisplayMac.CutsOfMatch | src/host_inspector/display/mac.py:6 | every text that matches has that shape, with the captures between the cuts |
| DisplayMac.MatchTailOfCuts | src/host_inspector/display/mac.py:6 | the optional rate group and the end, in that shape, match and capture the cut-out rate, or no rate |
| DisplayMac.RateCutsOfMatch | src/host_inspector/display/mac.py:6 | when the optional rate group and the end match, they have that shape and the capture is the cut-out rate |
| DisplayMac.MatchHeight | src/host_inspector/display/mac.py:6 | a match after the width keeps that width and reads a digit-string height |
| DisplayMac.ParseResNoMatch | src/host_inspector/display/mac.py:13-17 | a missing, non-string or non-matching value gives (None, None, None) |
| DisplayMac.EmptyNoMatch | src/host_inspector/display/mac.py:13-14 | the empty string gives no match |
| DisplayMac.ParseResError | src/host_inspector/display/mac.py:20 | `_parse_res` raises only when a rate was matched and `float()` rejects it, and then raises `ValueError` |
| DisplayMac.ParseResOfMatch | src/host_inspector/display/mac.py:18-21 | on a match with a valid rate, width and height are the decimal values of the two digit groups and hz is the matched rate or None |
| DisplayMac.ParseResPlain | src/host_inspector/display/mac.py:18-21 | "W x H" reads back as (W, H, None) |
| DisplayMac.PlainMatch | src/host_inspector/display/mac.py:6 | the regex matches "a x b" for digit strings a and b with no rate |
| DisplayMac.ParseResWithRate | src/host_inspector/display/mac.py:18-21 | "W x H @ R Hz" reads back as (W, H, R) |
| DisplayMac.WithRateMatch | src/host_inspector/display/mac.py:6 | the regex matches "a x b @ rHz" and captures the rate r |
| DisplayMac.SizeSpans | src/host_inspector/display/mac.py:6 | once "W x H" has matched, the whole match depends only on what follows H |
| DisplayMac.RateMatch | src/host_inspector/display/mac.py:6 | " @ rHz" at the end of the text matches as the rate suffix |
| DisplayMac.ToIntMaybeCases | src/host_inspector/display/mac.py:24-28 | an integer is itself, a string is parsed as `int()` parses it, and None, booleans, lists and dicts give None |
| DisplayMac.ParseIntStripped | src/host_inspector/display/mac.py:26 | stripping before `int()` changes nothing, since `int()` strips anyway |
| DisplayMac.NoDrivers | src/host_inspector/display/mac.py:38 | a card with a missing or falsy driver list contributes no entries |
| DisplayMac.DriverEntryDefaults | src/host_inspector/display/mac.py:39-63 | a driver with none of the keys is named "Display", has no display id, renders both resolutions as "None x None" and has refresh "--" |
| DisplayMac.CardEntriesInOrder | src/host_inspector/display/mac.py:38-64 | a card contributes exactly one entry per driver, in driver order |
| DisplayMac.SizeTextReadsBack | src/host_inspector/display/mac.py:60-61 | a rendered "W x H" parses back to the same width and height, and "None x None" parses to nothing |
| DisplayMac.NoneSizeNoMatch | src/host_inspector/display/mac.py:60-61 | "None x None" does not match the resolution regex |
| DisplayMac.DriverEntryOfParsed | src/host_inspector/display/mac.py:42-63 | a driver's entry renders the parsed actual resolution, the parsed pixel resolution and the actual resolution's refresh rate |
| DisplayMac.DriverEntryReadsBack | src/host_inspector/display/mac.py:42-63 | a driver whose resolution is "W x H @ R Hz" and whose pixels are "PW x PH" yields "W x H", "PW x PH" and refresh `RefreshHz(R)`, the admitted stand-in for `f"{float(R)} Hz"` |
| DisplayMac.ParseDisplayOutput | src/host_inspector/display/mac.py:31-65 | the nested loops return one entry per driver of every card, in order, or the first exception raised |
| DisplayMac.GetDisplayInfo | src/host_inspector/display/mac.py:68-75 | no output, undecodable output or any exception gives `[]`; otherwise the parsed entries |
| GpuWindows.ParseControllers | src/host_inspector/gpu/windows.py:27-37 | absent, empty or undecodable output gives `[]`; a decoded list is returned as-is; any other decoded value is wrapped in a one-element list |
| GpuWindows.Model | src/host_inspector/gpu/windows.py:40-44 | the model is `clean_name(Name)` for a truthy string Name and "--" for a missing or falsy one; a truthy non-string Name raises |
| GpuWindows.IntOf | src/host_inspector/gpu/windows.py:51 | `int()` keeps an integer, parses a string, and fails on None, a list or a dict |
| GpuWindows.VramOf | src/host_inspector/gpu/windows.py:47-54 | vram is "--" whenever AdapterRAM is missing, falsy or not convertible, and otherwise the converted byte count |
| GpuWindows.Resolution | src/host_inspector/gpu/windows.py:57-63 | "H x V" when both values are truthy (0 counts as absent), else "--" |
| GpuWindows.RefreshRate | src/host_inspector/gpu/windows.py:66-70 | "<r> Hz" when the rate is truthy, else "--" |
| GpuWindows.AdapterInfoOf | src/host_inspector/gpu/windows.py:73-80 | the four-key record succeeds exactly when the model does and then holds the four values |
| GpuWindows.AdapterInfosInOrder | src/host_inspector/gpu/windows.py:86-88 | the result is one record per controller, in the same order, when every controller succeeds |
| GpuWindows.AdapterInfosFirstError | src/host_inspector/gpu/windows.py:88 | otherwise the first failing controller's exception is raised |
| GpuWindows.AdapterInfoOfDict | src/host_inspector/gpu/windows.py:40-80 | a dict controller whose Name is missing, falsy or a string always gives a record |
| GpuWindows.GpuInfoEmpty | src/host_inspector/gpu/windows.py:84-88 | no, empty or undecodable output gives no adapters |
| GpuWindows.GpuInfoSingle | src/host_inspector/gpu/windows.py:33-35 | a single decoded controller object gives a one-element list |
| GpuWindows.ResolutionReadsBack | src/host_inspector/gpu/windows.py:62 | integer resolutions h and v render as three space-separated words "h", "x", "v" that parse back to h and v |
| GpuWindows.SplitAroundX | src/host_inspector/gpu/windows.py:62 | the " x " separator splits back into the two values |
| Network.Pairs | src/host_info/network.py:40 | `re.findall("..")` gives the consecutive non-overlapping two-character pieces and drops an odd last character |
| Network.FlattenPairs | src/host_info/network.py:40 | the pairs, concatenated, are the even-length prefix of the text |
| Network.NodeAsMacDigits | src/host_info/network.py:40 | removing the colons from the node address gives the zero-padded hex digits |
| Network.MacOfTwelveDigits | src/host_info/network.py:40 | twelve hex digits become six pairs joined by ":", 17 characters in all |
| Network.NodeAsMacReadsBack | src/host_info/network.py:38-40 | for a node below 2^48 the address is 17 characters: six hex-digit pairs with ":" between them; read back as hex, the pairs give the node again |
| Network.NodeAsMacIsNormal | src/host_info/network.py:40 | the node address is already in normal MAC form: no "-" and no upper-case letter |
| Network.FindInterface | src/host_info/network.py:43-51 | the result is ("--", []) or an interface of the table that has an address equal to ip |
| Network.FindInterfaceFirst | src/host_info/network.py:46-50 | the first interface in iteration order that has the address wins, together with its address list |
| Network.FindInterfaceNone | src/host_info/network.py:51 | when no interface has the address the result is ("--", []) |
| Network.GetNetworkInterfaceByIp | src/host_info/network.py:43-51 | the nested search loop with its early return gives the specification's interface |
| Network.FirstAddress | src/host_info/network.py:58 | `next(..., "")` gives "" or the address of an entry whose family is in the list |
| Network.FirstAddressAt | src/host_info/network.py:58 | it is the first such entry |
| Network.FirstAddressNone | src/host_info/network.py:58 | "" when there is no such entry |
| Network.NormaliseMac | src/host_info/network.py:59 | `lower().replace("-", ":")` keeps the length, turns exactly the "-" into ":", lower-cases every other character and leaves no "-" and no upper-case letter |
| Network.NormaliseMacFixed | src/host_info/network.py:59 | a string is left unchanged iff it is already in normal form |
| Network.NormaliseMacIdempotent | src/host_info/network.py:59 | normalising twice is normalising once |
| Network.MacForIp | src/host_info/network.py:54-59 | "--" iff the interface has no link-layer address (family 18, 17 or -1); otherwise that address normalised |
| Network.Ipv6ForIp | src/host_info/network.py:62-67 | "--" when there is no IPv6 address (family 30, 10 or 23); otherwise the address cut before its first "%" |
| Json.MapOrRaiseInOrder | src/host_inspector/gpu/windows.py:88 | a list comprehension succeeds iff every element does, and then gives one result per element in order |
| Json.MapOrRaiseFirstError | src/host_inspector/gpu/windows.py:88 | otherwise it raises the first failing element's exception |
| Json.AppendEach | src/host_inspector/display/mac.py:38-64 | the appending loop extends the list by the results in order, or stops with the first exception |
| Json.Lookup | src/host_inspector/gpu/windows.py:42 | a key is absent iff no member has it; otherwise the value is one stored under it |
| Json.GetOr | src/host_inspector/gpu/windows.py:42 | `dict.get(key, default)` gives the stored value or the default |
| Json.Get | src/host_inspector/gpu/windows.py:42 | `.get` on a dict reads it, and on anything else raises `AttributeError` |
| Json.Iterate | src/host_inspector/display/mac.py:37-38 | a list iterates over its items, a dict over its keys and a string over its characters; None, booleans and integers raise `TypeError` |
| Json.QuoteFor | src/host_inspector/gpu/windows.py:62 | `repr()` quotes a string with '"' iff it holds "'" and no '"', and with "'" otherwise |
| Json.EscapeChar | src/host_inspector/gpu/windows.py:62 | a character is written as itself iff it is not the quote, not a backslash and not one that `repr` escapes (control characters, the no-break space, the soft hyphen) |
| Json.QuoteRepr | src/host_inspector/gpu/windows.py:62 | the repr of a string begins and ends with the chosen quote |
| Json.Str | src/host_inspector/gpu/windows.py:62 | an f-string writes a string as itself |
| Json.ReprPlainString | src/host_inspector/gpu/windows.py:62 | a string needing no escapes is repr-ed between single quotes |
| Json.StrAsInt | src/host_inspector/display/mac.py:26 | `int(str(x))` reads back an integer and rejects None, booleans, lists and dicts |
| PyStr.Lower | src/host_inspector/firewall/windows.py:136 | lower-casing keeps the length and leaves no upper-case letter |
| PyStr.Upper | src/host_inspector/firewall/windows.py:147-149 | upper-casing keeps the length and leaves no lower-case letter |
| PyStr.Strip | src/host_inspector/cpu/utils.py:4 | the stripped text is no longer than the input and neither starts nor ends with whitespace |
| PyStr.StripIdempotent | src/host_inspector/cpu/utils.py:4 | stripping twice is stripping once |
| PyStr.Find | src/host_inspector/cpu/utils.py:4 | the found index is the first occurrence of the pattern, and None means there is none |
| PyStr.Split | src/host_inspector/firewall/linux.py:84 | `str.split(sep)` gives at least one piece and no piece holds the separator |
| PyStr.SplitJoin | src/host_inspector/firewall/linux.py:84 | joining the pieces with the separator gives the text back |
| PyStr.SplitOfJoin | src/host_inspector/firewall/windows.py:96 | splitting pieces that hold no separator after joining them gives the pieces back |
| PyStr.RemoveAll | src/host_inspector/gpu/utils.py:3 | `str.replace(pat, "")` never lengthens the text |
| PyStr.Decimal | src/host_inspector/utils/stringutils.py:5 | the decimal text of n is digits only, has no leading zero unless n is 0, and reads back as n |
| PyStr.ParseInt | src/host_inspector/display/mac.py:26 | `int()` of a digit string is its decimal value |
| PyStr.ParseIntOfIntStr | src/host_inspector/display/mac.py:26 | `int(str(i))` is i for every integer |
| PyStr.IntStrInjective | src/host_inspector/firewall/windows.py:61-64 | distinct integers have distinct decimal texts, so the port-string test compares numbers |
| PyStr.ParseIntRejects | src/host_inspector/display/mac.py:26-28 | text holding a character that is not whitespace, a digit, "_" or a sign is rejected by `int()` |
| PyStr.HexPadded | src/host_info/network.py:40 | `f"{n:0{w}x}"` has at least w characters, all hex digits |
| PyStr.HexPaddedReadsBack | src/host_info/network.py:40 | the padded hex text reads back as n, and is exactly w characters when n < 16^w |
| Wrappers.MapEach | src/host_inspector/firewall/windows.py:123-125 | a loop that fills one entry per element gives `f` of each element, in order |
| Wrappers.FlatMapAppend | src/host_inspector/firewall/windows.py:96-101 | the flat-map of two lists is the flat-map of the first followed by that of the second |
| Wrappers.FirstFromAt | src/host_inspector/firewall/windows.py:124 | a search returns the first index where the test holds |
| Wrappers.FirstFromNone | src/host_inspector/firewall/windows.py:124 | a search returns None iff the test holds nowhere |

## Left out

- Running the platform commands is not modelled: `netsh`, `ufw`, `systemctl`, `system_profiler`, PowerShell and `sw_vers` through `subprocess`, with their timeouts and exit-status exceptions. This covers `get_firewall_rules`, `check_firewall_status`, `is_firewall_enabled`, `get_firewall_info`, `get_gpu` and `_get_mac_os`. Their output text, or `None` for a failed run, is a parameter.
- `json.loads` is a parameter `decode` that returns `None` where Python raises `JSONDecodeError`. JSON numbers with a fraction or an exponent have no representation in the `Json` datatype.
- `importlib.import_module` is modelled as returning the platform variant, and the sub-modules themselves are not modelled.
- `functools.cache` has no observable effect on results and is not modelled.
- `psutil.net_if_addrs()` is an input list of interface names with their addresses, in iteration order. `ip_address` (a UDP socket) and `get_network_info` (`platform.node()` and composition) are not part of this model.
- Floating point is not modelled:
  - `bytes_to_gib` in `_get_vram`: the model keeps the integer byte count, as `GiB(bytes)`.
  - `float(hz)` in `_parse_res`: the rate stays as its matched text, with the float syntax checked and a zero rate read as falsy. How Python prints a float is not modelled.
- DisplayMac.DriverEntryReadsBack: states the refresh as `RefreshHz(R)` rather than the text `f"{float(R)} Hz"`, because how Python prints a float is not modelled.
  - `formatted_percentage`.
- `formatted_date` uses `strftime`, which depends on the clock and locale, and is not part of this model.
- All text is ASCII. `isdigit`, `\d`, `\s`, `strip`, `split()`, `upper` and `lower` are modelled over ASCII only, with whitespace being codes 9-13 and 28-32.
- Json.Repr follows Python's `repr` for the characters in scope: the quote and the backslash are escaped, `\t`, `\n` and `\r` use short forms, and the other control characters use `\xNN`. Non-printable characters above the Latin-1 range and the `\uNNNN` forms are not modelled. Its contract states only that the result is non-empty, because the callers need only how `str()` treats strings and integers.
- Json.Lookup returns the first entry under a duplicated key; `json.loads` keeps the last. Decoded objects are taken to have distinct keys.
- FirewallLinux.ParseFirewallOutput takes `ports_filter`, `enabled_only` and `exclude_any_ports` and ignores them, as the source does.
- GpuWindows.AdapterInfoOf reports only the model's exception. The other three fields can fail only on a non-dict controller, and there `_get_model` has already raised.
- Network.MacForIp states the normal form and length of the result rather than the character-by-character mapping; that mapping is the contract of `Network.NormaliseMac`.
- The aggregators in `src/host_inspector/__init__.py` are not part of this model, nor are the placeholder stubs: the macOS firewall, the Windows and Linux displays, and the Windows firewall's "TODO" status.
