/**
 * IPv4 addresses and CIDR blocks, with the arithmetic Python's `ipaddress`
 * module performs for an `IPv4Network`: netmask, hostmask, network address,
 * broadcast address, number of addresses, and the host iterator.
 *
 * An address is a 32-bit unsigned integer; a prefix length p in 0..32 selects
 * the top p bits as network bits and leaves 32 - p host bits (CIDR prefix
 * notation, section 3.1 of RFC 4632).
 */
module Ipv4 {
  import opened Bits
  import opened Text

  type Addr = a: nat | a < 0x1_0000_0000
  type Prefix = p: nat | p <= 32
  type Octet = o: nat | o < 256

  lemma AddressSpace()
    ensures Pow2(32) == 0x1_0000_0000
  {
    assert Pow2(4) == 16;
    Pow2Add(4, 4);
    Pow2Add(8, 8);
    Pow2Add(16, 16);
  }

  // ---------------------------------------------------------------------------
  // Dotted-quad form.
  // ---------------------------------------------------------------------------

  /** The address whose bytes, most significant first, are os (`int.from_bytes(os, 'big')`). */
  function FromOctets(os: seq<Octet>): Addr
    requires |os| == 4
  {
    var b0: nat, b1: nat, b2: nat, b3: nat := os[0], os[1], os[2], os[3];
    ((b0 * 256 + b1) * 256 + b2) * 256 + b3
  }

  /** The four bytes of an address, most significant first (`a.to_bytes(4, 'big')`). */
  function OctetsOf(a: Addr): (os: seq<Octet>)
    ensures |os| == 4
    ensures FromOctets(os) == a
  {
    var q1 := a / 256;
    var q2 := q1 / 256;
    var q3 := q2 / 256;
    OctetsSpell(a, q1, q2, q3);
    [q3, q2 % 256, q1 % 256, a % 256]
  }

  /** Peeling off bytes one at a time: each quotient is 256 times the next plus its low byte. */
  lemma OctetsSpell(a: Addr, q1: nat, q2: nat, q3: nat)
    requires q1 == a / 256 && q2 == q1 / 256 && q3 == q2 / 256
    ensures q3 < 256
    ensures ((q3 * 256 + q2 % 256) * 256 + q1 % 256) * 256 + a % 256 == a
  {
    assert q1 * 256 + a % 256 == a;
    assert q2 * 256 + q1 % 256 == q1;
    assert q3 * 256 + q2 % 256 == q2;
    assert q1 < 0x100_0000;
    assert q2 < 0x1_0000;
  }

  /** Bytes survive a trip through the address they spell. */
  lemma OctetsRoundTrip(os: seq<Octet>)
    requires |os| == 4
    ensures OctetsOf(FromOctets(os)) == os
  {
    var a := FromOctets(os);
    var b0: nat, b1: nat, b2: nat, b3: nat := os[0], os[1], os[2], os[3];
    DivModUnique(a, 256, (b0 * 256 + b1) * 256 + b2, b3);
    DivModUnique(a / 256, 256, b0 * 256 + b1, b2);
    DivModUnique(a / 256 / 256, 256, b0, b1);
  }

  /** The dotted-quad text of an address, as `str(IPv4Address(a))` writes it. */
  function FormatAddress(a: Addr): (s: string)
    ensures DottedDigits(s)
  {
    var os := OctetsOf(a);
    var parts := [DecimalString(os[0]), DecimalString(os[1]), DecimalString(os[2]), DecimalString(os[3])];
    JoinDottedDigits(parts);
    Join(parts, '.')
  }

  /** Every character is a decimal digit or a dot. */
  predicate DottedDigits(s: string)
  {
    forall i | 0 <= i < |s| :: IsDigit(s[i]) || s[i] == '.'
  }

  lemma {:induction false} JoinDottedDigits(parts: seq<string>)
    requires forall k | 0 <= k < |parts| :: AllDigits(parts[k])
    ensures DottedDigits(Join(parts, '.'))
  {
    if |parts| > 1 {
      JoinDottedDigits(parts[1..]);
    }
  }

  // ---------------------------------------------------------------------------
  // Masks.
  // ---------------------------------------------------------------------------

  /** Number of addresses in a block of prefix length p: 2^(32 - p). */
  function BlockSize(p: Prefix): nat
  {
    Pow2(32 - p)
  }

  /** The netmask of prefix length p: the top p of the 32 bits set. */
  function Netmask(p: Prefix): (m: Addr)
    ensures m + BlockSize(p) == 0x1_0000_0000
  {
    AddressSpace();
    TopOnes(32 - p, 32)
  }

  /** The hostmask of prefix length p: the complement of the netmask within 32 bits. */
  function Hostmask(p: Prefix): (m: Addr)
    ensures m == BlockSize(p) - 1
  {
    AddressSpace();
    NotComplement(Netmask(p), 32);
    Not(Netmask(p), 32)
  }

  /** The netmask has exactly the bits 32-p .. 31 set, and the hostmask exactly the others below 32. */
  lemma MaskBits(p: Prefix, i: nat)
    ensures Bit(Netmask(p), i) <==> 32 - p <= i < 32
    ensures i < 32 ==> (Bit(Hostmask(p), i) <==> i < 32 - p)
  {
    TopOnesBit(32 - p, 32, i);
    if i < 32 {
      NotBit(Netmask(p), 32, i);
    }
  }

  // ---------------------------------------------------------------------------
  // Blocks.
  // ---------------------------------------------------------------------------

  /** A network in prefix notation: `network/prefix`. */
  datatype CidrBlock = CidrBlock(network: Addr, prefix: Prefix)
  {
    /** The network address has no host bit set: masking it with the netmask changes nothing. */
    predicate Valid()
    {
      And(network, Netmask(prefix), 32) == network
    }
  }

  /** A block is valid exactly when its network address is a multiple of its size,
      and exactly when the network address shares no bit with the hostmask. */
  lemma ValidIff(b: CidrBlock)
    ensures b.Valid() <==> b.network % BlockSize(b.prefix) == 0
    ensures b.Valid() <==> And(b.network, Hostmask(b.prefix), 32) == 0
  {
    var k := 32 - b.prefix;
    AddressSpace();
    assert Netmask(b.prefix) == TopOnes(k, 32);
    assert Hostmask(b.prefix) == Ones(k);
    AndTopOnes(b.network, k, 32);
    AndOnes(b.network, k, 32);
  }

  /** The network address of a in a /p network: `a & netmask`, which clears the host bits. */
  function NetworkOf(a: Addr, p: Prefix): (n: Addr)
    ensures n % BlockSize(p) == 0
    ensures n <= a < n + BlockSize(p)
  {
    AddressSpace();
    AndTopOnes(a, 32 - p, 32);
    RoundDown(a, BlockSize(p));
    And(a, Netmask(p), 32)
  }

  /** The block of prefix length p that contains a. */
  function BlockOf(a: Addr, p: Prefix): (b: CidrBlock)
    ensures b.Valid() && b.prefix == p
    ensures b.network <= a < b.network + BlockSize(p)
  {
    var b := CidrBlock(NetworkOf(a, p), p);
    ValidIff(b);
    b
  }

  /** Masking rounds an address down to a multiple of the block size. */
  lemma NetworkOfRoundsDown(a: Addr, p: Prefix)
    ensures NetworkOf(a, p) == a - a % BlockSize(p)
  {
    AddressSpace();
    AndTopOnes(a, 32 - p, 32);
  }

  /** Masking is idempotent: an address already on a block boundary is its own network address. */
  lemma NetworkOfIdempotent(a: Addr, p: Prefix)
    ensures NetworkOf(NetworkOf(a, p), p) == NetworkOf(a, p)
  {
    AddressSpace();
    AndTopOnes(NetworkOf(a, p), 32 - p, 32);
  }

  /** The broadcast address: `network | hostmask`. */
  function Broadcast(b: CidrBlock): (r: Addr)
    requires b.Valid()
    ensures r == b.network + BlockSize(b.prefix) - 1
  {
    AddressSpace();
    ValidIff(b);
    assert Hostmask(b.prefix) == Ones(32 - b.prefix);
    OrOnes(b.network, 32 - b.prefix, 32);
    Or(b.network, Hostmask(b.prefix), 32)
  }

  /** The network address shares no bit with the hostmask, so a /32's broadcast is its network. */
  lemma NetworkHostmaskDisjoint(b: CidrBlock)
    requires b.Valid()
    ensures And(b.network, Hostmask(b.prefix), 32) == 0
    ensures b.prefix == 32 ==> Broadcast(b) == b.network
  {
    ValidIff(b);
  }

  /** `num_addresses`: broadcast - network + 1. */
  function NumAddresses(b: CidrBlock): (n: nat)
    requires b.Valid()
    ensures n == Pow2(32 - b.prefix)
  {
    Broadcast(b) - b.network + 1
  }

  /** Each address comes before every later one. */
  predicate Ascending(s: seq<Addr>)
  {
    forall i, j | 0 <= i < j < |s| :: s[i] < s[j]
  }

  /** The members of s are exactly lo, lo+1, ..., hi-1. */
  ghost predicate Spans(s: seq<Addr>, lo: int, hi: int)
  {
    forall x: int :: x in s <==> lo <= x < hi
  }

  /** The addresses lo, lo+1, ..., hi-1 in ascending order (`range(lo, hi)`). */
  function Range(lo: Addr, hi: nat): (r: seq<Addr>)
    requires lo <= hi <= 0x1_0000_0000
    ensures |r| == hi - lo
    ensures forall i | 0 <= i < |r| :: r[i] == lo + i
    ensures Spans(r, lo, hi)
    ensures Ascending(r)
  {
    var r := seq(hi - lo, i requires 0 <= i < hi - lo => lo + i);
    forall x: int | lo <= x < hi
      ensures x in r
    {
      assert r[x - lo] == x;
    }
    r
  }

  /** `IPv4Network.hosts()`: a /32 yields its one address, a /31 both of its addresses
      (PointToPoint), and every wider block the addresses strictly between network and
      broadcast (HostsOfStandard). The hosts ascend. */
  function Hosts(b: CidrBlock): (hs: seq<Addr>)
    requires b.Valid()
    ensures Ascending(hs)
  {
    var last := Broadcast(b);
    if b.prefix == 32 then [b.network]
    else if b.prefix == 31 then Range(b.network, last + 1)
    else Range(b.network + 1, last)
  }

  /** A /32 is a single address: its broadcast address is its network address, and that
      address is its one host. */
  lemma SingleAddress(b: CidrBlock)
    requires b.Valid() && b.prefix == 32
    ensures Broadcast(b) == b.network
    ensures Hosts(b) == [b.network]
  {
    assert Pow2(0) == 1;
  }

  /** A /31 is a point-to-point link: its broadcast address follows its network address,
      and both are hosts. */
  lemma PointToPoint(b: CidrBlock)
    requires b.Valid() && b.prefix == 31
    ensures Broadcast(b) == b.network + 1
    ensures Hosts(b) == [b.network, b.network + 1]
  {
    assert Pow2(1) == 2;
    RangePair(b.network);
  }

  lemma RangePair(lo: Addr)
    requires lo + 2 <= 0x1_0000_0000
    ensures Range(lo, lo + 2) == [lo, lo + 1]
  {
    var all := Range(lo, lo + 2);
    assert all[0] in all;
    assert all[1] in all;
  }

  /** Below /31 the hosts are the addresses strictly between the network and the broadcast
      address: all but two of the block. */
  lemma HostsOfStandard(b: CidrBlock)
    requires b.Valid() && b.prefix <= 30
    ensures |Hosts(b)| == NumAddresses(b) - 2
    ensures Spans(Hosts(b), b.network + 1, Broadcast(b))
  {
  }
}
