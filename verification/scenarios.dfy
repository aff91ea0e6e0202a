/**
 * Worked inputs for the two IP range tools: a /24, a host address inside a
 * /8, a /31, a /32, an octet out of range and a prefix out of range, and the
 * suggested inputs of the full tool's error result.
 */
module Scenarios {
  import opened Bits
  import opened Text
  import opened Ipv4
  import opened CidrParse
  import opened IpRange

  /** The address a.b.c.d. */
  function Quad(a: Octet, b: Octet, c: Octet, d: Octet): (r: Addr)
    ensures OctetsOf(r) == [a, b, c, d]
  {
    OctetsRoundTrip([a, b, c, d]);
    FromOctets([a, b, c, d])
  }

  lemma Numerals()
    ensures DecimalString(0) == "0" && DecimalString(1) == "1" && DecimalString(4) == "4"
    ensures DecimalString(5) == "5" && DecimalString(7) == "7" && DecimalString(8) == "8"
    ensures DecimalString(10) == "10" && DecimalString(12) == "12" && DecimalString(16) == "16"
    ensures DecimalString(24) == "24" && DecimalString(28) == "28" && DecimalString(31) == "31"
    ensures DecimalString(32) == "32" && DecimalString(100) == "100" && DecimalString(168) == "168"
    ensures DecimalString(172) == "172" && DecimalString(192) == "192"
  {
    assert DecimalString(1) == "1" && DecimalString(2) == "2" && DecimalString(3) == "3";
    assert DecimalString(6) == "6" && DecimalString(9) == "9";
    assert DecimalString(17) == "17" && DecimalString(19) == "19";
  }

  /** Joining four pieces puts the separator between neighbours. */
  lemma JoinFour(p0: string, p1: string, p2: string, p3: string, sep: char)
    ensures Join([p0, p1, p2, p3], sep) == p0 + [sep] + p1 + [sep] + p2 + [sep] + p3
  {
    var parts := [p0, p1, p2, p3];
    assert parts[1..] == [p1, p2, p3];
    assert [p1, p2, p3][1..] == [p2, p3];
    assert [p2, p3][1..] == [p3];
    assert Join([p2, p3], sep) == p2 + [sep] + p3;
    assert Join([p1, p2, p3], sep) == p1 + [sep] + (p2 + [sep] + p3);
    assert Join(parts, sep) == p0 + [sep] + (p1 + [sep] + (p2 + [sep] + p3));
  }

  /** The dotted quad of a.b.c.d. */
  lemma Dotted(a: Octet, b: Octet, c: Octet, d: Octet)
    ensures FormatAddress(Quad(a, b, c, d))
      == DecimalString(a) + "." + DecimalString(b) + "." + DecimalString(c) + "." + DecimalString(d)
  {
    assert OctetsOf(Quad(a, b, c, d)) == [a, b, c, d];
    JoinFour(DecimalString(a), DecimalString(b), DecimalString(c), DecimalString(d), '.');
  }

  /** The text `a.b.c.d/p` denotes the /p network containing a.b.c.d. */
  lemma Spelled(a: Octet, b: Octet, c: Octet, d: Octet, p: Prefix, text: string)
    requires text == DecimalString(a) + "." + DecimalString(b) + "." + DecimalString(c) + "." + DecimalString(d)
      + "/" + DecimalString(p)
    ensures ParseNetwork(text) == Ok(CidrBlock(NetworkOf(Quad(a, b, c, d), p), p))
  {
    Dotted(a, b, c, d);
    ParseClearsHostBits(Quad(a, b, c, d), p);
  }

  /** The text `a.b.c.d/p`, where a.b.c.d has no host bits, denotes a.b.c.d/p itself. */
  lemma SpelledNetwork(a: Octet, b: Octet, c: Octet, d: Octet, p: Prefix, text: string)
    requires text == DecimalString(a) + "." + DecimalString(b) + "." + DecimalString(c) + "." + DecimalString(d)
      + "/" + DecimalString(p)
    requires Quad(a, b, c, d) % BlockSize(p) == 0
    ensures ParseNetwork(text) == Ok(CidrBlock(Quad(a, b, c, d), p))
  {
    Spelled(a, b, c, d, p, text);
    ParseClearsHostBits(Quad(a, b, c, d), p);
  }

  /** What the full report of an accepted input is made of. */
  lemma Report(input: string, b: CidrBlock)
    requires ParseNetwork(input) == Ok(b)
    ensures var r := GetIpRange(input);
      && r.RangeReport?
      && r.networkInfo.networkAddress == b.network
      && r.networkInfo.broadcastAddress == Broadcast(b)
      && r.networkInfo.prefixLength == b.prefix
      && r.usableRange == FullUsableRange(b)
      && r.allUsableIps == Display(UsableIps(b), FullUsableRange(b).totalUsable)
  {
  }

  /** 192.168.1.0/24: network 192.168.1.0, broadcast 192.168.1.255, and 254 usable addresses
      from 192.168.1.1 to 192.168.1.254. */
  lemma Slash24()
    ensures var r := GetIpRange("192.168.1.0/24");
      && r.RangeReport?
      && r.networkInfo.networkAddress == Quad(192, 168, 1, 0)
      && r.networkInfo.broadcastAddress == Quad(192, 168, 1, 255)
      && r.usableRange == UsableRange(Quad(192, 168, 1, 1), Quad(192, 168, 1, 254), 254)
  {
    var b := CidrBlock(Quad(192, 168, 1, 0), 24);
    Slash24Parse();
    Slash24Addresses();
    StandardBlock(b);
  }

  lemma Slash24Parse()
    ensures ParseNetwork("192.168.1.0/24") == Ok(CidrBlock(Quad(192, 168, 1, 0), 24))
  {
    Slash24Addresses();
    Numerals();
    SpelledNetwork(192, 168, 1, 0, 24, "192.168.1.0/24");
  }

  lemma Slash24Addresses()
    ensures BlockSize(24) == 256 && Pow2(32 - 24) == 256
    ensures Quad(192, 168, 1, 0) % BlockSize(24) == 0
    ensures Quad(192, 168, 1, 1) == Quad(192, 168, 1, 0) + 1
    ensures Quad(192, 168, 1, 254) == Quad(192, 168, 1, 0) + 254
    ensures Quad(192, 168, 1, 255) == Quad(192, 168, 1, 0) + 255
  {
    assert Pow2(8) == 256;
    assert Quad(192, 168, 1, 0) == 0xC0A8_0100;
  }

  /** 10.0.0.5/8: the host bits are cleared, giving the block 10.0.0.0/8. */
  lemma HostBitsCleared()
    ensures ParseNetwork("10.0.0.5/8") == Ok(CidrBlock(Quad(10, 0, 0, 0), 8))
  {
    Numerals();
    Spelled(10, 0, 0, 5, 8, "10.0.0.5/8");
    TenDotZeroNetwork();
  }

  lemma TenDotZeroNetwork()
    ensures NetworkOf(Quad(10, 0, 0, 5), 8) == Quad(10, 0, 0, 0)
  {
    var a := Quad(10, 0, 0, 5);
    assert a == 0x0A00_0005;
    assert Quad(10, 0, 0, 0) == 0x0A00_0000;
    Slash8Size();
    DivModUnique(a, BlockSize(8), 10, 5);
    NetworkOfRoundsDown(a, 8);
  }

  lemma Slash8Size()
    ensures BlockSize(8) == 0x100_0000
  {
    assert Pow2(4) == 16;
    Pow2Add(4, 4);
    Pow2Add(8, 8);
    Pow2Add(16, 8);
  }

  /** 192.168.1.4/31: both addresses usable, 192.168.1.4 to 192.168.1.5. */
  lemma Slash31()
    ensures var r := GetIpRange("192.168.1.4/31");
      && r.RangeReport?
      && r.usableRange == UsableRange(Quad(192, 168, 1, 4), Quad(192, 168, 1, 5), 2)
      && r.allUsableIps == AllUsable([Quad(192, 168, 1, 4), Quad(192, 168, 1, 5)])
  {
    var b := CidrBlock(Quad(192, 168, 1, 4), 31);
    Slash31Parse();
    Report("192.168.1.4/31", b);
    PointToPointLink(b);
    assert Quad(192, 168, 1, 5) == b.network + 1;
  }

  lemma Slash31Parse()
    ensures ParseNetwork("192.168.1.4/31") == Ok(CidrBlock(Quad(192, 168, 1, 4), 31))
  {
    Numerals();
    assert Quad(192, 168, 1, 4) == 0xC0A8_0104;
    assert BlockSize(31) == 2;
    SpelledNetwork(192, 168, 1, 4, 31, "192.168.1.4/31");
  }

  /** 192.168.1.7/32: the single host 192.168.1.7. */
  lemma Slash32()
    ensures var r := GetIpRange("192.168.1.7/32");
      && r.RangeReport?
      && r.usableRange == UsableRange(Quad(192, 168, 1, 7), Quad(192, 168, 1, 7), 1)
      && r.allUsableIps == AllUsable([Quad(192, 168, 1, 7)])
  {
    var b := CidrBlock(Quad(192, 168, 1, 7), 32);
    Slash32Parse();
    Report("192.168.1.7/32", b);
    SingleHost(b);
  }

  lemma Slash32Parse()
    ensures ParseNetwork("192.168.1.7/32") == Ok(CidrBlock(Quad(192, 168, 1, 7), 32))
  {
    Numerals();
    assert BlockSize(32) == 1;
    SpelledNetwork(192, 168, 1, 7, 32, "192.168.1.7/32");
  }

  /** 192.168.1.256/24: the last octet is out of range; both tools answer with an error
      that echoes the input. */
  lemma OctetOutOfRange()
    ensures ParseNetwork("192.168.1.256/24") == Err(OctetTooLarge(256))
    ensures GetIpRange("192.168.1.256/24") == RangeError("192.168.1.256/24", VALID_EXAMPLES)
    ensures GetIpRangeSummary("192.168.1.256/24") == SummaryError("192.168.1.256/24")
  {
    assert "192.168.1.256/24" == "192.168.1.256" + "/" + "24";
    SplitAddressAndPrefix("192.168.1.256", "24");
    BadAddress();
    ErrorEchoesInput("192.168.1.256/24");
  }

  lemma BadAddress()
    ensures ParseAddress("192.168.1.256") == Err(OctetTooLarge(256))
  {
    BadAddressParts();
    Numerals();
    OctetRoundTrip(192);
    OctetRoundTrip(168);
    OctetRoundTrip(1);
    BadOctet();
  }

  lemma BadAddressParts()
    ensures Split("192.168.1.256", '.') == ["192", "168", "1", "256"]
  {
    var parts := ["192", "168", "1", "256"];
    JoinFour("192", "168", "1", "256", '.');
    assert Join(parts, '.') == "192.168.1.256";
    assert forall i | 0 <= i < 4 :: '.' !in parts[i];
    SplitJoin(parts, '.');
  }

  lemma BadOctet()
    ensures ParseOctet("256") == Err(OctetTooLarge(256))
  {
    assert DecimalValue("256") == 256 by {
      assert "256"[..2] == "25" && "25"[..1] == "2";
    }
  }

  /** Text with one '/' splits into the address part and the prefix part. */
  lemma SplitAddressAndPrefix(addr: string, prefix: string)
    requires '/' !in addr && '/' !in prefix
    ensures Split(addr + "/" + prefix, '/') == [addr, prefix]
  {
    SplitAtFirstSeparator(addr, '/', prefix);
    SplitWithoutSeparator(prefix, '/');
  }

  /** 10.0.0.0/33: the prefix length is out of range. */
  lemma PrefixOutOfRange()
    ensures ParseNetwork("10.0.0.0/33") == Err(InvalidPrefix("33"))
    ensures GetIpRange("10.0.0.0/33").RangeError?
  {
    assert "10.0.0.0/33" == "10.0.0.0" + "/" + "33";
    SplitAddressAndPrefix("10.0.0.0", "33");
    NetworkAddressText();
    BadPrefix();
    ErrorEchoesInput("10.0.0.0/33");
  }

  lemma BadPrefix()
    ensures ParsePrefix("33") == Err(InvalidPrefix("33"))
  {
    assert DecimalValue("33") == 33 by {
      assert "33"[..1] == "3";
    }
  }

  lemma NetworkAddressText()
    ensures ParseAddress("10.0.0.0") == Ok(Quad(10, 0, 0, 0))
  {
    Numerals();
    Dotted(10, 0, 0, 0);
    assert FormatAddress(Quad(10, 0, 0, 0)) == "10.0.0.0";
    AddressRoundTrip(Quad(10, 0, 0, 0));
  }

  /** 192.168.1/24: three octets instead of four. */
  lemma TooFewOctets()
    ensures ParseNetwork("192.168.1/24") == Err(WrongOctetCount(3))
    ensures GetIpRangeSummary("192.168.1/24") == SummaryError("192.168.1/24")
  {
    assert "192.168.1/24" == "192.168.1" + "/" + "24";
    SplitAddressAndPrefix("192.168.1", "24");
    ThreeParts();
    ErrorEchoesInput("192.168.1/24");
  }

  lemma ThreeParts()
    ensures Split("192.168.1", '.') == ["192", "168", "1"]
  {
    var parts := ["192", "168", "1"];
    assert parts[1..] == ["168", "1"];
    assert ["168", "1"][1..] == ["1"];
    assert Join(parts, '.') == "192.168.1";
    assert forall i | 0 <= i < 3 :: '.' !in parts[i];
    SplitJoin(parts, '.');
  }

  /** 10.0.0.0/x: the prefix is not a number. */
  lemma NonNumericPrefix()
    ensures ParseNetwork("10.0.0.0/x") == Err(InvalidPrefix("x"))
    ensures GetIpRange("10.0.0.0/x") == RangeError("10.0.0.0/x", VALID_EXAMPLES)
  {
    assert "10.0.0.0/x" == "10.0.0.0" + "/" + "x";
    NonNumericPrefixParse();
    ErrorEchoesInput("10.0.0.0/x");
  }

  lemma NonNumericPrefixParse()
    ensures ParseNetwork("10.0.0.0/x") == Err(InvalidPrefix("x"))
  {
    assert "10.0.0.0/x" == "10.0.0.0" + "/" + "x";
    SplitAddressAndPrefix("10.0.0.0", "x");
    NetworkAddressText();
    assert !IsDigit("x"[0]);
  }

  /** The inputs the error result suggests are all accepted. */
  lemma SuggestedExamplesAccepted()
    ensures forall k | 0 <= k < |VALID_EXAMPLES| :: ParseNetwork(VALID_EXAMPLES[k]).Ok?
  {
    forall k | 0 <= k < |VALID_EXAMPLES|
      ensures ParseNetwork(VALID_EXAMPLES[k]).Ok?
    {
      if k == 0 {
        ExampleAccepted0();
      } else if k == 1 {
        ExampleAccepted1();
      } else if k == 2 {
        ExampleAccepted2();
      } else {
        ExampleAccepted3();
      }
    }
  }

  lemma ExampleAccepted0()
    ensures ParseNetwork("192.168.1.0/24").Ok?
  {
    Numerals();
    Spelled(192, 168, 1, 0, 24, "192.168.1.0/24");
  }

  lemma ExampleAccepted1()
    ensures ParseNetwork("10.0.0.0/16").Ok?
  {
    Numerals();
    Spelled(10, 0, 0, 0, 16, "10.0.0.0/16");
  }

  lemma ExampleAccepted2()
    ensures ParseNetwork("172.16.0.0/12").Ok?
  {
    Numerals();
    Spelled(172, 16, 0, 0, 12, "172.16.0.0/12");
  }

  lemma ExampleAccepted3()
    ensures ParseNetwork("192.168.1.100/28").Ok?
  {
    Numerals();
    Spelled(192, 168, 1, 100, 28, "192.168.1.100/28");
  }
}
