/**
 * Network identity of the host: the node address as a colon-separated MAC,
 * the interface owning an IP address, and that interface's MAC and IPv6
 * addresses.  The interface table (psutil's `net_if_addrs()`) is an input:
 * its names in dictionary iteration order, each with its address list.
 */
module Network {
  import opened PyStr

  /** Address family numbers, which differ between platforms (Mac, Linux, Windows). */
  const AF_INET6: seq<int> := [30, 10, 23]
  const AF_LINK: seq<int> := [18, 17, -1]

  /** One `snicaddr`: its family number and its address text. */
  datatype NicAddr = NicAddr(family: int, address: string)

  /** The interface table: (name, addresses) in iteration order. */
  type Interfaces = seq<(string, seq<NicAddr>)>

  // ---------------------------------------------------------------- node address

  /** `re.findall("..", s)`: consecutive non-overlapping pairs; an odd last character is dropped. */
  function Pairs(s: string): (r: seq<string>)
    ensures |r| == |s| / 2
    ensures forall k :: 0 <= k < |r| ==> |r[k]| == 2 && r[k] == s[2 * k..2 * k + 2]
    decreases |s|
  {
    if |s| < 2 then [] else [s[..2]] + Pairs(s[2..])
  }

  /** The parts written one after the other (`"".join(parts)`). */
  function Flatten(parts: seq<string>): string {
    if |parts| == 0 then "" else parts[0] + Flatten(parts[1..])
  }

  /** `":".join(re.findall("..", f"{node:012x}"))` */
  function NodeAsMac(node: nat): (mac: string)
  {
    Join(Pairs(HexPadded(node, 12)), ':')
  }

  /** Concatenating the pairs gives back the text, less an odd last character. */
  lemma {:induction false} FlattenPairs(s: string)
    ensures Flatten(Pairs(s)) == s[..2 * (|s| / 2)]
    decreases |s|
  {
    if |s| >= 2 {
      FlattenPairs(s[2..]);
      assert s[..2 * (|s| / 2)] == s[..2] + s[2..][..2 * (|s[2..]| / 2)];
    }
  }

  /** Deleting the separator from a join gives the concatenated parts, when no part holds the separator. */
  lemma {:induction false} RemoveSeparator(parts: seq<string>, c: char)
    requires |parts| >= 1
    requires forall k :: 0 <= k < |parts| ==> c !in parts[k]
    ensures RemoveAll(Join(parts, c), [c]) == Flatten(parts)
  {
    RemoveCharAbsent(parts[0], c);
    if |parts| == 1 {
      assert Flatten(parts) == parts[0] + Flatten(parts[1..]);
    } else {
      RemoveSeparator(parts[1..], c);
      RemoveCharAppend(parts[0] + [c], Join(parts[1..], c), c);
      RemoveCharAppend(parts[0], [c], c);
      assert RemoveAll([c], [c]) == [];
    }
  }

  /** Where a join of two-character parts puts each part and each separator. */
  lemma {:induction false} JoinOfPairs(parts: seq<string>, c: char)
    requires |parts| >= 1
    requires forall k :: 0 <= k < |parts| ==> |parts[k]| == 2
    ensures |Join(parts, c)| == 3 * |parts| - 1
    ensures forall k :: 0 <= k < |parts| ==> Join(parts, c)[3 * k..3 * k + 2] == parts[k]
    ensures forall k :: 0 <= k < |parts| - 1 ==> Join(parts, c)[3 * k + 2] == c
  {
    if |parts| > 1 {
      JoinOfPairs(parts[1..], c);
      var j := Join(parts, c);
      var rest := Join(parts[1..], c);
      assert j == parts[0] + [c] + rest;
      forall k | 1 <= k < |parts|
        ensures j[3 * k..3 * k + 2] == parts[k]
      {
        assert j[3 * k..3 * k + 2] == rest[3 * (k - 1)..3 * (k - 1) + 2];
      }
      forall k | 1 <= k < |parts| - 1
        ensures j[3 * k + 2] == c
      {
        assert j[3 * k + 2] == rest[3 * (k - 1) + 2];
      }
    }
  }

  /**
   * For any node, deleting the colons from its MAC text gives its padded
   * hexadecimal digits, cut to an even count.
   */
  lemma NodeAsMacDigits(node: nat)
    ensures var h := HexPadded(node, 12);
      RemoveAll(NodeAsMac(node), ":") == h[..2 * (|h| / 2)]
  {
    var h := HexPadded(node, 12);
    var parts := Pairs(h);
    forall k | 0 <= k < |parts|
      ensures ':' !in parts[k]
    {
      assert parts[k][0] == h[2 * k] && parts[k][1] == h[2 * k + 1];
    }
    RemoveSeparator(parts, ':');
    FlattenPairs(h);
  }

  /** Twelve hexadecimal digits joined in pairs: 17 characters, a colon after every pair but the last. */
  lemma MacOfTwelveDigits(h: string)
    requires |h| == 12 && IsHexDigits(h)
    ensures |Join(Pairs(h), ':')| == 17
    ensures forall k :: 0 <= k < 5 ==> Join(Pairs(h), ':')[3 * k + 2] == ':'
    ensures forall k :: 0 <= k < 6 ==>
      IsHexDigit(Join(Pairs(h), ':')[3 * k]) && IsHexDigit(Join(Pairs(h), ':')[3 * k + 1])
  {
    var parts := Pairs(h);
    JoinOfPairs(parts, ':');
    var mac := Join(parts, ':');
    forall k | 0 <= k < 6
      ensures IsHexDigit(mac[3 * k]) && IsHexDigit(mac[3 * k + 1])
    {
      var pair := mac[3 * k..3 * k + 2];
      assert pair == parts[k] == h[2 * k..2 * k + 2];
      assert mac[3 * k] == pair[0] == h[2 * k];
      assert mac[3 * k + 1] == pair[1] == h[2 * k + 1];
    }
  }

  /**
   * A 48-bit node gives 17 characters: six pairs of lowercase hexadecimal
   * digits separated by colons, which read back as the node.
   */
  lemma NodeAsMacReadsBack(node: nat)
    requires node < 0x1_0000_0000_0000
    ensures |NodeAsMac(node)| == 17
    ensures forall k :: 0 <= k < 5 ==> NodeAsMac(node)[3 * k + 2] == ':'
    ensures forall k :: 0 <= k < 6 ==>
      IsHexDigit(NodeAsMac(node)[3 * k]) && IsHexDigit(NodeAsMac(node)[3 * k + 1])
    ensures IsHexDigits(RemoveAll(NodeAsMac(node), ":"))
    ensures HexValue(RemoveAll(NodeAsMac(node), ":")) == node
  {
    var h := HexPadded(node, 12);
    assert Pow16(12) == 0x1_0000_0000_0000;
    HexPaddedReadsBack(node, 12);
    MacOfTwelveDigits(h);
    NodeAsMacDigits(node);
    assert h[..12] == h;
  }

  // ---------------------------------------------------------------- interface lookup

  /** The address list holds `ip`. */
  predicate HasAddress(addrs: seq<NicAddr>, ip: string) {
    exists j :: 0 <= j < |addrs| && addrs[j].address == ip
  }

  /**
   * The first interface, in iteration order, with an address equal to `ip`,
   * together with its address list; `("--", [])` when there is none.
   */
  function FindInterface(intfaces: Interfaces, ip: string): (r: (string, seq<NicAddr>))
    ensures r == ("--", []) || (r in intfaces && HasAddress(r.1, ip))
  {
    if |intfaces| == 0 then ("--", [])
    else if HasAddress(intfaces[0].1, ip) then intfaces[0]
    else FindInterface(intfaces[1..], ip)
  }

  /** The lookup picks the interface at the first index whose addresses hold `ip`. */
  lemma {:induction false} FindInterfaceFirst(intfaces: Interfaces, ip: string, i: nat)
    requires i < |intfaces| && HasAddress(intfaces[i].1, ip)
    requires forall j :: 0 <= j < i ==> !HasAddress(intfaces[j].1, ip)
    ensures FindInterface(intfaces, ip) == intfaces[i]
  {
    if i > 0 {
      FindInterfaceFirst(intfaces[1..], ip, i - 1);
    }
  }

  /** No interface holds `ip`: the lookup gives `("--", [])`. */
  lemma {:induction false} FindInterfaceNone(intfaces: Interfaces, ip: string)
    requires forall j :: 0 <= j < |intfaces| ==> !HasAddress(intfaces[j].1, ip)
    ensures FindInterface(intfaces, ip) == ("--", [])
  {
    if |intfaces| > 0 {
      FindInterfaceNone(intfaces[1..], ip);
    }
  }

  /** `get_network_interface_by_ip`: the nested search with an early return. */
  method GetNetworkInterfaceByIp(intfaces: Interfaces, ip: string) returns (name: string, addrs: seq<NicAddr>)
    ensures (name, addrs) == FindInterface(intfaces, ip)
  {
    for n := 0 to |intfaces|
      invariant FindInterface(intfaces[n..], ip) == FindInterface(intfaces, ip)
    {
      var list := intfaces[n].1;
      for k := 0 to |list|
        invariant forall j :: 0 <= j < k ==> list[j].address != ip
      {
        if list[k].address == ip {
          assert HasAddress(intfaces[n..][0].1, ip);
          return intfaces[n].0, list;
        }
      }
      assert intfaces[n..][1..] == intfaces[n + 1..];
    }
    return "--", [];
  }

  // ---------------------------------------------------------------- MAC and IPv6

  /** `next((x.address for x in addrs if x.family in families), "")` */
  function FirstAddress(addrs: seq<NicAddr>, families: seq<int>): (r: string)
    ensures r == "" || exists j :: 0 <= j < |addrs| && addrs[j].family in families && addrs[j].address == r
  {
    if |addrs| == 0 then ""
    else if addrs[0].family in families then addrs[0].address
    else FirstAddress(addrs[1..], families)
  }

  /** The first address of a family in `families` is the one picked. */
  lemma {:induction false} FirstAddressAt(addrs: seq<NicAddr>, families: seq<int>, i: nat)
    requires i < |addrs| && addrs[i].family in families
    requires forall j :: 0 <= j < i ==> addrs[j].family !in families
    ensures FirstAddress(addrs, families) == addrs[i].address
  {
    if i > 0 {
      FirstAddressAt(addrs[1..], families, i - 1);
    }
  }

  /** No address of a family in `families`: the default `""`. */
  lemma {:induction false} FirstAddressNone(addrs: seq<NicAddr>, families: seq<int>)
    requires forall j :: 0 <= j < |addrs| ==> addrs[j].family !in families
    ensures FirstAddress(addrs, families) == ""
  {
    if |addrs| > 0 {
      FirstAddressNone(addrs[1..], families);
    }
  }

  /** A MAC text in normal form: no `-` and no uppercase letter. */
  predicate IsNormalMac(s: string) {
    forall i :: 0 <= i < |s| ==> s[i] != '-' && !IsUpperLetter(s[i])
  }

  /** `mac.lower().replace("-", ":")` */
  function NormaliseMac(mac: string): (r: string)
    ensures |r| == |mac|
    ensures IsNormalMac(r)
    ensures forall i :: 0 <= i < |r| ==> (r[i] == ':' <==> mac[i] == '-' || mac[i] == ':')
    ensures forall i :: 0 <= i < |r| && mac[i] != '-' ==> r[i] == LowerChar(mac[i])
  {
    var low := Lower(mac);
    seq(|low|, i requires 0 <= i < |low| => if low[i] == '-' then ':' else low[i])
  }

  /** Text already in normal form is left unchanged, so normalising twice is normalising once. */
  lemma NormaliseMacFixed(mac: string)
    ensures IsNormalMac(mac) <==> NormaliseMac(mac) == mac
  {
    if IsNormalMac(mac) {
      assert forall i :: 0 <= i < |mac| ==> NormaliseMac(mac)[i] == mac[i];
    }
  }

  lemma NormaliseMacIdempotent(mac: string)
    ensures NormaliseMac(NormaliseMac(mac)) == NormaliseMac(mac)
  {
    NormaliseMacFixed(NormaliseMac(mac));
  }

  /** The node address is already a normal MAC text. */
  lemma NodeAsMacIsNormal(node: nat)
    ensures IsNormalMac(NodeAsMac(node))
  {
    var h := HexPadded(node, 12);
    var parts := Pairs(h);
    JoinChars(parts, ':');
    var mac := NodeAsMac(node);
    forall i | 0 <= i < |mac|
      ensures mac[i] != '-' && !IsUpperLetter(mac[i])
    {
      if mac[i] != ':' {
        var k, m :| 0 <= k < |parts| && 0 <= m < |parts[k]| && parts[k][m] == mac[i];
        assert parts[k][m] == h[2 * k + m];
      }
    }
  }

  /** Every character of a join comes from a part or is the separator. */
  lemma {:induction false} JoinChars(parts: seq<string>, c: char)
    requires |parts| >= 1
    ensures forall i :: 0 <= i < |Join(parts, c)| ==>
      Join(parts, c)[i] == c || exists k, m :: 0 <= k < |parts| && 0 <= m < |parts[k]| && parts[k][m] == Join(parts, c)[i]
  {
    if |parts| > 1 {
      JoinChars(parts[1..], c);
      var j := Join(parts, c);
      var rest := Join(parts[1..], c);
      assert j == parts[0] + [c] + rest;
      forall i | |parts[0]| + 1 <= i < |j|
        ensures j[i] == c || exists k, m :: 0 <= k < |parts| && 0 <= m < |parts[k]| && parts[k][m] == j[i]
      {
        assert j[i] == rest[i - |parts[0]| - 1];
        if rest[i - |parts[0]| - 1] != c {
          var k, m :| 0 <= k < |parts[1..]| && 0 <= m < |parts[1..][k]| && parts[1..][k][m] == rest[i - |parts[0]| - 1];
          assert parts[k + 1][m] == j[i];
        }
      }
    }
  }

  /** `get_mac_address_for_ip`: `"--"` when the interface has no link-layer address (or an empty one). */
  function MacForIp(intfaces: Interfaces, ip: string): (r: string)
    ensures FirstAddress(FindInterface(intfaces, ip).1, AF_LINK) == "" <==> r == "--"
    ensures r != "--" ==> IsNormalMac(r) && |r| == |FirstAddress(FindInterface(intfaces, ip).1, AF_LINK)|
  {
    var mac := FirstAddress(FindInterface(intfaces, ip).1, AF_LINK);
    if mac == "" then "--"
    else
      var r := NormaliseMac(mac);
      assert r[0] != '-';
      r
  }

  /** `get_ipv6_address_for_ip`: the first IPv6 address cut before its first `%` (the zone index). */
  function Ipv6ForIp(intfaces: Interfaces, ip: string): (r: string)
    ensures FirstAddress(FindInterface(intfaces, ip).1, AF_INET6) == "" ==> r == "--"
    ensures var addr := FirstAddress(FindInterface(intfaces, ip).1, AF_INET6);
      addr != "" ==> |r| <= |addr| && r == addr[..|r|] && '%' !in r && (|r| < |addr| ==> addr[|r|] == '%') && ('%' !in addr ==> r == addr)
  {
    var addr := FirstAddress(FindInterface(intfaces, ip).1, AF_INET6);
    if addr == "" then "--" else UpTo(addr, '%')
  }
}
