# IPv4 CIDR range calculator

A Dafny model of the two tools in `get_ip_range.py`:

- `get_ip_range` reads a text such as `192.168.1.0/24` as an IPv4 network.
  It reports the network address, broadcast address, netmask, `/p` notation
  and prefix length, then the usable range (first, last, count), then the
  usable addresses. The listing is cut to the first 100 when there are more.
- `get_ip_range_summary` reports the same network facts with the usable
  range written as `first - last` and the total and usable address counts.

The model reads a dotted quad with an optional decimal `/p`. For text it
does not accept, both tools return an error result that echoes the input,
and the full tool's error also suggests four valid inputs. `ip_network`
itself accepts more, namely IPv6 text and netmask-style suffixes such as
`10.0.0.0/255.0.0.0`. The model does not read those forms, as recorded under
"## Left out".

The tools lean on Python's `ipaddress` module. The model writes the parts
they use directly:

- Non-strict parsing of a dotted quad with an optional `/p`: host bits are
  cleared, and a missing prefix means /32.
- The netmask: the top p of 32 bits set.
- The hostmask: its complement.
- The network address: `address & netmask`.
- The broadcast address: the network address or-ed with the hostmask.
- `num_addresses`.
- `hosts()`.

Addresses are natural numbers below 2^32, and the bitwise operators are
defined bit by bit. The usable addresses follow the tools' three-tier rule:

- a /32 is a single host;
- a /31 is a point-to-point link whose two addresses are both usable, as in
  RFC 3021;
- every wider block excludes its network and broadcast addresses.

Modules, in dependency order:

- `Bits` (`bits.dfy`): powers of two and bitwise and/or/not on
  w-bit numbers, with their arithmetic meaning (masking the low bits is a
  remainder, masking the high bits rounds down, or-ing the low bits fills
  them).
- `Text` (`text.dfy`): decimal numerals as `int()` reads and `str()`
  writes them, and `str.split` with its inverse `str.join`.
- `Ipv4` (`ipv4.dfy`): addresses, dotted-quad text, masks, CIDR blocks,
  broadcast, address count and `hosts()`.
- `CidrParse` (`cidr_parse.dfy`): the parser for `ip_network(text,
  strict=False)` restricted to IPv4 dotted-quad input, and the canonical text
  of a block.
- `IpRange` (`ip_range.dfy`): the two tools and the properties relating them.
- `Scenarios` (`scenarios.dfy`): worked inputs, namely a /24, a host address
  in a /8, a /31, a /32, the malformed kinds, and the inputs the error result
  suggests.

## Model

| member | source | states |
|---|---|---|
| CidrParse.ParseOctet | get_ip_range.py:29 | An accepted octet is the canonical numeral of a value below 256, so no leading zeros, no sign and no more than three digits. |
| CidrParse.OctetRoundTrip | get_ip_range.py:29 | Every octet value is accepted in its printed form. |
| CidrParse.ParseAddress | get_ip_range.py:29 | An accepted address text is exactly the dotted-quad text of the address it yields. |
| CidrParse.AddressRoundTrip | get_ip_range.py:32 | Printing an address and reading it back gives the same address. |
| CidrParse.ParseAddressIff | get_ip_range.py:29 | An address text is accepted exactly when it is the printed form of an address. |
| CidrParse.ParsePrefix | get_ip_range.py:29 | An accepted prefix is a decimal numeral of its value, which is at most 32. Any other text is rejected as an invalid prefix. |
| CidrParse.ParsePrefixIff | get_ip_range.py:29 | A prefix text is accepted with value p exactly when it is a numeral of p. |
| CidrParse.PrefixLeadingZero | get_ip_range.py:29 | Unlike an octet, a prefix may carry leading zeros: prefixing `0` neither changes acceptance nor the value. |
| CidrParse.ParseNetwork | get_ip_range.py:29 | A parsed block is valid, meaning no host bits are set. It is the block of the parsed prefix length that contains an address the text spells with that prefix. |
| CidrParse.ParseNetworkComplete | get_ip_range.py:29 | Every spelling of an address with or without `/p` is accepted and yields the block containing the address. |
| CidrParse.ParseNetworkIff | get_ip_range.py:29 | The parser yields block b exactly when the text spells some address of b with b's prefix length, and b is that address's block. |
| CidrParse.ParseClearsHostBits | get_ip_range.py:29 | `a/p` is read as the network of `a & netmask`, and a bare address as a /32. An address is its own network address exactly when it is a multiple of the block size. |
| CidrParse.CanonicalText | get_ip_range.py:32-35 | No contract of its own. `str(network)`, the network address and `/p`, is pinned by `ReparseCanonical` and `ParseIdempotent`: it parses back to the block. |
| CidrParse.ReparseCanonical | get_ip_range.py:104 | Re-reading the canonical `network/prefix` text of a valid block gives the same block. |
| CidrParse.ParseIdempotent | get_ip_range.py:104 | Whatever a text denotes, re-reading its canonical text denotes the same block. |
| Ipv4.OctetsOf | get_ip_range.py:32 | The four bytes of an address, most significant first, rebuild the address. |
| Ipv4.OctetsRoundTrip | get_ip_range.py:32 | Building an address from four bytes and splitting it again gives back the same bytes. |
| Ipv4.FormatAddress | get_ip_range.py:32 | The printed address consists only of digits and dots. |
| Ipv4.Netmask | get_ip_range.py:34 | The netmask and the block size sum to 2^32. `MaskBits` states bit by bit that it is the top p bits. |
| Ipv4.MaskBits | get_ip_range.py:34 | The netmask has exactly bits 32-p to 31 set. The hostmask has exactly the bits below 32-p set. |
| Ipv4.Hostmask | get_ip_range.py:33 | The hostmask, the complement of the netmask, equals 2^(32-p) - 1. |
| Ipv4.ValidIff | get_ip_range.py:29 | A block has no host bits exactly when its network address is a multiple of the block size. This also holds exactly when the address shares no bit with the hostmask. |
| Ipv4.NetworkOf | get_ip_range.py:29 | `a & netmask` is a multiple of the block size, at most a, and within one block size of a. |
| Ipv4.NetworkOfRoundsDown | get_ip_range.py:29 | `a & netmask` is a minus a's remainder modulo the block size. |
| Ipv4.NetworkOfIdempotent | get_ip_range.py:29 | Masking a network address again changes nothing. |
| Ipv4.BlockOf | get_ip_range.py:29 | The block of prefix p containing a is valid and has prefix p, and a lies within it. |
| Ipv4.Broadcast | get_ip_range.py:33 | The network address or-ed with the hostmask is the last address of the block: network + 2^(32-p) - 1. |
| Ipv4.NetworkHostmaskDisjoint | get_ip_range.py:33 | `network & hostmask` is 0, so the broadcast of a /32 is its network address. |
| Ipv4.NumAddresses | get_ip_range.py:125 | `num_addresses` is 2^(32-p). |
| Ipv4.Hosts | get_ip_range.py:53 | `hosts()` is in ascending order. |
| Ipv4.SingleAddress | get_ip_range.py:41-43 | A /32's broadcast address is its network address, and `hosts()` yields exactly that one address. |
| Ipv4.PointToPoint | get_ip_range.py:46 | A /31's broadcast address follows its network address, and `hosts()` yields both. |
| Ipv4.HostsOfStandard | get_ip_range.py:53 | Below /31, `hosts()` yields exactly the addresses strictly between network and broadcast, which is num_addresses - 2 of them. |
| IpRange.CidrNotation | get_ip_range.py:35 | The `/p` text is a slash followed by a numeral that the prefix parser reads back as p. |
| IpRange.CidrNotationCanonical | get_ip_range.py:123 | The numeral after the slash is the one `str()` writes for p, with no leading zero except in `/0`. |
| IpRange.FullUsableRange | get_ip_range.py:38-57 | No contract of its own. `SingleHost`, `PointToPointLink` and `StandardBlock` state each tier's first, last and count, and `UsableRangeSummarisesList` ties them to the usable list. |
| IpRange.SummaryUsableRange | get_ip_range.py:106-117 | No contract of its own. `UsableRangesAgree` states that it equals the full tool's usable range, with count `num_addresses - 2` below /31. |
| IpRange.Display | get_ip_range.py:74-75 | No contract of its own. `ListingShowsPrefix` and `ListingIsUsable` state that the listing is the whole usable list up to 100 entries, and otherwise the count with the first 100, ascending and all usable. |
| IpRange.UsableIps | get_ip_range.py:41-57 | The usable list is in ascending order and its length follows the three tiers: 1 for /32, 2 for /31, 2^(32-p) - 2 otherwise. |
| IpRange.SingleHost | get_ip_range.py:41-44 | For a /32: broadcast = network, first = last = network, count 1, and the list is exactly [network]. |
| IpRange.PointToPointLink | get_ip_range.py:45-50 | For a /31: broadcast = network + 1, first = network, last = broadcast, count 2, and the list is exactly those two. |
| IpRange.StandardBlock | get_ip_range.py:51-57 | For p ≤ 30: first = network + 1, last = broadcast - 1, and the count is 2^(32-p) - 2, which is at least 2. The list is never empty, so the "N/A" fallback cannot occur. |
| IpRange.StandardUsableIps | get_ip_range.py:53-54 | For p ≤ 30 the usable list holds exactly the addresses strictly between network and broadcast, and entry i is network + 1 + i. |
| IpRange.UsableRangeSummarisesList | get_ip_range.py:41-57 | The usable range's first, last and count are the usable list's first entry, last entry and length, and the list is never empty. |
| IpRange.UsableRangesAgree | get_ip_range.py:107-117 | The summary's `num_addresses - 2` equals the full tool's `len(hosts())`, so both tools compute the same usable range for every block. |
| IpRange.GetIpRange | get_ip_range.py:27-94 | The report echoes the input. It is an error exactly when the text is not a network, and the error carries the suggested inputs. Otherwise it carries the parsed network address and prefix length, broadcast = network + 2^(32-p) - 1, the netmask of p, the `/p` text, and the usable range of the three-tier rule, whose count is 1, 2 or 2^(32-p) - 2. |
| IpRange.GetIpRangeSummary | get_ip_range.py:101-133 | The summary echoes the input. It is an error exactly when the text is not a network. Otherwise it reports the network address, the netmask of p, the `/p` text, total = 2^(32-p), broadcast = network + total - 1, and the three-tier usable count. |
| IpRange.ToolsAgree | get_ip_range.py:119-127 | Both tools accept the same inputs. On each they report the same network, netmask, `/p`, broadcast, usable count and `first - last` text. |
| IpRange.ErrorEchoesInput | get_ip_range.py:81-94 | For text that is not a network, the full tool returns only the input and the suggested inputs, and the summary returns only the input. |
| IpRange.ListingShowsPrefix | get_ip_range.py:74-75 | Up to 100 usable addresses are all listed. Above that the listing holds the count and exactly the first 100 usable addresses. |
| IpRange.ListingIsUsable | get_ip_range.py:74-75 | Every listed address is usable, and the listing is in ascending order. |
| Scenarios.Slash24 | get_ip_range.py:29-76 | The full report for `192.168.1.0/24` has network 192.168.1.0, broadcast 192.168.1.255, and usable range 192.168.1.1 to 192.168.1.254 with count 254. |
| Scenarios.HostBitsCleared | get_ip_range.py:29 | `10.0.0.5/8` is read as 10.0.0.0/8. |
| Scenarios.Slash31 | get_ip_range.py:45-50 | `192.168.1.4/31` has usable range 192.168.1.4 to 192.168.1.5, count 2, and lists both. |
| Scenarios.Slash32 | get_ip_range.py:41-44 | `192.168.1.7/32` has usable range 192.168.1.7 to 192.168.1.7, count 1, and lists that one address. |
| Scenarios.OctetOutOfRange | get_ip_range.py:81-94 | `192.168.1.256/24` is rejected for an octet above 255, and both tools return the error result echoing the input. |
| Scenarios.TooFewOctets | get_ip_range.py:132-133 | `192.168.1/24` is rejected for having three octets, and the summary returns the error echoing the input. |
| Scenarios.PrefixOutOfRange | get_ip_range.py:81-94 | `10.0.0.0/33` is rejected as an invalid prefix, and the full tool returns an error. |
| Scenarios.NonNumericPrefix | get_ip_range.py:81-94 | `10.0.0.0/x` is rejected as an invalid prefix, and the full tool returns the error echoing the input. |
| Scenarios.SuggestedExamplesAccepted | get_ip_range.py:87-92 | Every input the error result suggests is itself accepted. |

## Left out

- MCP server plumbing (the `FastMCP` instance, tool registration, the startup banner and `mcp.run`): transport and a foreign library.
- `client1.py` and `server1.py`: a remote tool call over HTTP and a greeting formatter. Neither has logic to model.
- JSON rendering (`json.dumps`, indentation, `ensure_ascii`), the fixed Chinese message texts and the `str(e)` message of the `ValueError`. Results are datatypes, and an error is a variant carrying the input.
- The large-listing text `共 N 个IP，前100个已显示[...]`: modelled as the variant `FirstHundred(count, first hundred addresses)` rather than as a string.
- Report fields that hold dotted-quad text in the tools hold the address number in the model. `FormatAddress` gives the text, and its round trip with the parser is proved.
- IPv6, and the other input forms `ip_network` accepts: netmask or hostmask suffixes such as `/255.255.255.0`, integers, bytes and tuples. Only a dotted quad with an optional decimal `/p` is read.
- Why text is rejected: the parser names a reason (`ParseError`), but the tools, like `ipaddress`, do not expose it beyond the message text.
- Ipv4.Hosts: its contract states only the ascending order. What it yields in each tier is stated by `Ipv4.SingleAddress`, `Ipv4.PointToPoint` and `Ipv4.HostsOfStandard`. A /32's `hosts()` is its one address, as in Python 3.8 and later; the tools do not call `hosts()` for a /32.
- IpRange.GetIpRange: its contract does not restate the listing. What the listing holds is stated by `IpRange.ListingShowsPrefix` and `IpRange.ListingIsUsable`.
- Materialising the host list of a large block: the usable list is a sequence defined by index (`network + 1 + i`), never computed element by element. The tools themselves build `list(network.hosts())` for every block wider than /31 (get_ip_range.py:53, 116-117). For the widest blocks, such as a /0 with 2^32 - 2 hosts, that list may exhaust memory, and the resulting `MemoryError` is not caught by the tools' `except ValueError`. The model returns a report for every block and does not model that failure.
