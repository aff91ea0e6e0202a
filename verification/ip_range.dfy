/**
 * The two IP range tools: `get_ip_range`, the full report with the list of
 * usable addresses, and `get_ip_range_summary`, the same facts without the
 * list. Both read their argument as a non-strict IPv4 network and answer with
 * a structured result or, for malformed text, an error that echoes the input.
 *
 * Usable addresses follow a three-tier rule on the prefix length:
 * a /32 is a single host, a /31 is a point-to-point link whose two addresses
 * are both usable (RFC 3021), and every wider block excludes its network and
 * broadcast addresses.
 */
module IpRange {
  import opened Bits
  import opened Text
  import opened Ipv4
  import opened CidrParse

  /** Inputs the full tool suggests when it cannot read its argument. */
  const VALID_EXAMPLES: seq<string> := ["192.168.1.0/24", "10.0.0.0/16", "172.16.0.0/12", "192.168.1.100/28"]

  /** Above this many usable addresses the full tool lists only the first ones. */
  const LISTING_LIMIT: nat := 100

  datatype NetworkInfo = NetworkInfo(
    networkAddress: Addr,
    broadcastAddress: Addr,
    netmask: Addr,
    cidrNotation: string,
    prefixLength: Prefix)

  datatype UsableRange = UsableRange(firstUsable: Addr, lastUsable: Addr, totalUsable: nat)

  /** The usable addresses as the full tool shows them: all of them, or, for a large block,
      the count and the first LISTING_LIMIT. */
  datatype Listing =
    | AllUsable(ips: seq<Addr>)
    | FirstHundred(total: nat, ips: seq<Addr>)

  datatype RangeReport =
    | RangeReport(input: string, networkInfo: NetworkInfo, usableRange: UsableRange, allUsableIps: Listing)
    | RangeError(input: string, validExamples: seq<string>)

  datatype SummaryReport =
    | Summary(
        input: string,
        network: Addr,
        netmask: Addr,
        cidr: string,
        usableRange: string,
        totalIps: nat,
        usableIps: nat,
        broadcast: Addr)
    | SummaryError(input: string)

  /** The prefix length as the tools print it, `/p`: a slash followed by a numeral the
      parser reads back as p. */
  function CidrNotation(p: Prefix): (r: string)
    ensures |r| >= 2 && r[0] == '/'
    ensures ParsePrefix(r[1..]) == Ok(p)
  {
    var r := "/" + DecimalString(p);
    DecimalRoundTrip(p);
    assert r[1..] == DecimalString(p);
    r
  }

  /** The numeral after the slash is the canonical one `str()` writes: no leading zero
      except in `/0` itself. */
  lemma CidrNotationCanonical(p: Prefix)
    ensures CidrNotation(p)[1..] == DecimalString(p)
    ensures CidrNotation(p)[1] == '0' ==> |CidrNotation(p)| == 2
  {
    var r := CidrNotation(p);
    assert r[1..] == DecimalString(p);
  }

  /** The number of usable addresses the three-tier rule prescribes for a /p block. */
  function ExpectedUsable(p: Prefix): nat
  {
    if p == 32 then 1 else if p == 31 then 2 else Pow2(32 - p) - 2
  }

  /** The usable addresses the full tool lists: the one address of a /32, otherwise `hosts()`.
      They ascend and are as many as the three-tier rule prescribes. */
  function UsableIps(b: CidrBlock): (ips: seq<Addr>)
    requires b.Valid()
    ensures |ips| == ExpectedUsable(b.prefix)
    ensures Ascending(ips)
  {
    if b.prefix == 32 then [b.network]
    else if b.prefix == 31 then
      PointToPoint(b);
      Hosts(b)
    else
      HostsOfStandard(b);
      Hosts(b)
  }

  /** The usable range of the full tool. Below /31 it reads first and last off `hosts()`,
      which is never empty there, so the "N/A" fallback of the tool cannot arise. */
  function FullUsableRange(b: CidrBlock): UsableRange
    requires b.Valid()
  {
    if b.prefix == 32 then UsableRange(b.network, b.network, 1)
    else if b.prefix == 31 then UsableRange(b.network, Broadcast(b), 2)
    else
      var hs := Hosts(b);
      HostsOfStandard(b);
      assert Pow2(2) == 4;
      Pow2Monotone(2, 32 - b.prefix);
      UsableRange(hs[0], hs[|hs| - 1], |hs|)
  }

  /** The usable range of the summary tool. Below /31 the count is `num_addresses - 2`. */
  function SummaryUsableRange(b: CidrBlock): UsableRange
    requires b.Valid()
  {
    if b.prefix == 32 then UsableRange(b.network, b.network, 1)
    else if b.prefix == 31 then UsableRange(b.network, Broadcast(b), 2)
    else
      var hs := Hosts(b);
      HostsOfStandard(b);
      assert Pow2(2) == 4;
      Pow2Monotone(2, 32 - b.prefix);
      UsableRange(hs[0], hs[|hs| - 1], NumAddresses(b) - 2)
  }

  /** The listing of the full tool: everything up to LISTING_LIMIT addresses, else the first
      LISTING_LIMIT of them with the count. */
  function Display(ips: seq<Addr>, total: nat): (l: Listing)
  {
    if total <= LISTING_LIMIT then AllUsable(ips)
    else FirstHundred(total, ips[..if |ips| < LISTING_LIMIT then |ips| else LISTING_LIMIT])
  }

  /** `get_ip_range`: network facts, usable range and usable-address listing, or an error
      that echoes the input and suggests valid inputs. */
  function GetIpRange(input: string): (r: RangeReport)
    ensures r.input == input
    ensures r.RangeError? <==> ParseNetwork(input).Err?
    ensures r.RangeError? ==> r.validExamples == VALID_EXAMPLES
    ensures r.RangeReport? ==>
      var b := ParseNetwork(input).value;
      && r.networkInfo.networkAddress == b.network
      && r.networkInfo.prefixLength == b.prefix
      && r.networkInfo.broadcastAddress == b.network + BlockSize(b.prefix) - 1
      && r.networkInfo.netmask == Netmask(b.prefix)
      && r.networkInfo.cidrNotation == CidrNotation(b.prefix)
      && r.usableRange == FullUsableRange(b)
      && r.usableRange.totalUsable == ExpectedUsable(b.prefix)
  {
    match ParseNetwork(input)
    case Err(_) => RangeError(input, VALID_EXAMPLES)
    case Ok(b) =>
      UsableRangeSummarisesList(b);
      var info := NetworkInfo(b.network, Broadcast(b), Netmask(b.prefix), CidrNotation(b.prefix), b.prefix);
      var usable := FullUsableRange(b);
      RangeReport(input, info, usable, Display(UsableIps(b), usable.totalUsable))
  }

  /** `get_ip_range_summary`: the same facts as a summary, with the usable range as text
      `first - last` and the address counts, or an error that echoes the input. */
  function GetIpRangeSummary(input: string): (r: SummaryReport)
    ensures r.input == input
    ensures r.SummaryError? <==> ParseNetwork(input).Err?
    ensures r.Summary? ==>
      var b := ParseNetwork(input).value;
      && r.network == b.network
      && r.totalIps == Pow2(32 - b.prefix)
      && r.broadcast == b.network + r.totalIps - 1
      && r.netmask == Netmask(b.prefix)
      && r.cidr == CidrNotation(b.prefix)
      && r.usableIps == ExpectedUsable(b.prefix)
  {
    match ParseNetwork(input)
    case Err(_) => SummaryError(input)
    case Ok(b) =>
      var u := SummaryUsableRange(b);
      Summary(
        input,
        b.network,
        Netmask(b.prefix),
        CidrNotation(b.prefix),
        FormatAddress(u.firstUsable) + " - " + FormatAddress(u.lastUsable),
        NumAddresses(b),
        u.totalUsable,
        Broadcast(b))
  }

  // ---------------------------------------------------------------------------
  // The three tiers.
  // ---------------------------------------------------------------------------

  /** The usable range summarises the usable list: its first and last entries and its
      length, and the length is the count the three-tier rule prescribes. */
  lemma UsableRangeSummarisesList(b: CidrBlock)
    requires b.Valid()
    ensures var u, ips := FullUsableRange(b), UsableIps(b);
      && |ips| >= 1
      && u.firstUsable == ips[0]
      && u.lastUsable == ips[|ips| - 1]
      && u.totalUsable == |ips| == ExpectedUsable(b.prefix)
  {
    assert Pow2(2) == 4;
    if b.prefix <= 30 {
      Pow2Monotone(2, 32 - b.prefix);
    }
  }

  /** A /32 is a single host: its network address is its broadcast address and the one usable address. */
  lemma SingleHost(b: CidrBlock)
    requires b.Valid() && b.prefix == 32
    ensures Broadcast(b) == b.network
    ensures FullUsableRange(b) == UsableRange(b.network, b.network, 1)
    ensures UsableIps(b) == [b.network]
  {
    NetworkHostmaskDisjoint(b);
  }

  /** A /31 is a point-to-point link: both of its addresses are usable. */
  lemma PointToPointLink(b: CidrBlock)
    requires b.Valid() && b.prefix == 31
    ensures Broadcast(b) == b.network + 1
    ensures FullUsableRange(b) == UsableRange(b.network, b.network + 1, 2)
    ensures UsableIps(b) == [b.network, b.network + 1]
  {
    PointToPoint(b);
  }

  /** A /30 or wider block excludes its network and broadcast addresses: the usable range
      runs from the address after the network address to the one before the broadcast
      address, and is never empty. */
  lemma StandardBlock(b: CidrBlock)
    requires b.Valid() && b.prefix <= 30
    ensures var u := FullUsableRange(b);
      && u.firstUsable == b.network + 1
      && u.lastUsable == Broadcast(b) - 1
      && u.totalUsable == Pow2(32 - b.prefix) - 2 >= 2
  {
    HostsOfStandard(b);
    assert Pow2(2) == 4;
    Pow2Monotone(2, 32 - b.prefix);
    FirstAndLast(Hosts(b), b.network + 1, Broadcast(b) - 1);
  }

  /** In a /30 or wider block the usable addresses are exactly those strictly between the
      network and broadcast addresses, the i-th of them being network + 1 + i. */
  lemma StandardUsableIps(b: CidrBlock)
    requires b.Valid() && b.prefix <= 30
    ensures Spans(UsableIps(b), b.network + 1, Broadcast(b))
    ensures forall i | 0 <= i < |UsableIps(b)| :: UsableIps(b)[i] == b.network + 1 + i
  {
    HostsOfStandard(b);
  }

  /** In an ascending list whose members are exactly lo..hi, lo comes first and hi last. */
  lemma FirstAndLast(s: seq<Addr>, lo: int, hi: int)
    requires lo <= hi
    requires Spans(s, lo, hi + 1)
    requires Ascending(s)
    ensures |s| >= 1 && s[0] == lo && s[|s| - 1] == hi
  {
    assert lo in s;
    var k :| 0 <= k < |s| && s[k] == lo;
    assert hi in s;
    var m :| 0 <= m < |s| && s[m] == hi;
    assert s[0] in s && s[|s| - 1] in s;
  }

  // ---------------------------------------------------------------------------
  // The two tools agree.
  // ---------------------------------------------------------------------------

  /** `len(hosts())` below /31 is `num_addresses - 2`, so the full tool and the summary
      report the same usable range for every block. */
  lemma UsableRangesAgree(b: CidrBlock)
    requires b.Valid()
    ensures FullUsableRange(b) == SummaryUsableRange(b)
    ensures FullUsableRange(b).totalUsable == ExpectedUsable(b.prefix)
  {
    UsableRangeSummarisesList(b);
  }

  /** Both tools accept and reject the same inputs, and on accepted input report the same
      network, netmask, prefix, broadcast and usable range. */
  lemma ToolsAgree(input: string)
    ensures GetIpRange(input).RangeReport? <==> GetIpRangeSummary(input).Summary?
    ensures GetIpRange(input).RangeReport? ==>
      var full, sum := GetIpRange(input), GetIpRangeSummary(input);
      var u := full.usableRange;
      && sum.network == full.networkInfo.networkAddress
      && sum.netmask == full.networkInfo.netmask
      && sum.cidr == full.networkInfo.cidrNotation
      && sum.broadcast == full.networkInfo.broadcastAddress
      && sum.usableIps == u.totalUsable
      && sum.usableRange == FormatAddress(u.firstUsable) + " - " + FormatAddress(u.lastUsable)
  {
    if ParseNetwork(input).Ok? {
      UsableRangesAgree(ParseNetwork(input).value);
    }
  }

  /** Text that is not an IPv4 network gets an error result from both tools that holds only
      the input as given (and, from the full tool, the suggested inputs). */
  lemma ErrorEchoesInput(input: string)
    requires ParseNetwork(input).Err?
    ensures GetIpRange(input) == RangeError(input, VALID_EXAMPLES)
    ensures GetIpRangeSummary(input) == SummaryError(input)
  {
  }

  // ---------------------------------------------------------------------------
  // The listing.
  // ---------------------------------------------------------------------------

  /** The full tool lists every usable address when there are at most LISTING_LIMIT of them,
      and otherwise the count with the first LISTING_LIMIT usable addresses. */
  lemma ListingShowsPrefix(input: string)
    requires GetIpRange(input).RangeReport?
    ensures var r := GetIpRange(input);
      var b := ParseNetwork(input).value;
      var total := r.usableRange.totalUsable;
      && (total <= LISTING_LIMIT ==> r.allUsableIps == AllUsable(UsableIps(b)))
      && (total > LISTING_LIMIT ==>
            && r.allUsableIps.FirstHundred?
            && r.allUsableIps.total == total
            && |r.allUsableIps.ips| == LISTING_LIMIT
            && r.allUsableIps.ips == UsableIps(b)[..LISTING_LIMIT])
  {
    UsableRangeSummarisesList(ParseNetwork(input).value);
  }

  /** Every listed address is usable, and the listing is in ascending order. */
  lemma ListingIsUsable(input: string)
    requires GetIpRange(input).RangeReport?
    ensures var r := GetIpRange(input);
      var b := ParseNetwork(input).value;
      var shown := r.allUsableIps.ips;
      && (forall i | 0 <= i < |shown| :: shown[i] in UsableIps(b))
      && Ascending(shown)
  {
    var b := ParseNetwork(input).value;
    var r := GetIpRange(input);
    assert r.allUsableIps == Display(UsableIps(b), r.usableRange.totalUsable);
    DisplayIsPrefix(UsableIps(b), r.usableRange.totalUsable);
    PrefixOfAscending(UsableIps(b), r.allUsableIps.ips);
  }

  /** The listing shows a leading part of the list it is given. */
  lemma DisplayIsPrefix(ips: seq<Addr>, total: nat)
    ensures var shown := Display(ips, total).ips;
      |shown| <= |ips| && shown == ips[..|shown|]
  {
  }

  lemma PrefixOfAscending(ips: seq<Addr>, shown: seq<Addr>)
    requires |shown| <= |ips| && shown == ips[..|shown|]
    requires Ascending(ips)
    ensures forall i | 0 <= i < |shown| :: shown[i] in ips
    ensures Ascending(shown)
  {
    forall i | 0 <= i < |shown|
      ensures shown[i] in ips
    {
      assert shown[i] == ips[i];
    }
  }
}
