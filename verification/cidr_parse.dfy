/**
 * Reading an IPv4 network written as `a.b.c.d` or `a.b.c.d/p`, the way
 * `ipaddress.ip_network(text, strict=False)` reads it, and writing a block
 * back in its canonical form.
 *
 * The text is split at '/', of which there may be at most one. The address
 * part must be exactly four dot-separated decimal octets, each one to three
 * ASCII digits, without a leading zero, and at most 255. The prefix part, when
 * present, must be ASCII digits (leading zeros are allowed here) with a value
 * of at most 32; when absent the prefix is 32. Host bits set in the address
 * are cleared rather than rejected (non-strict parsing).
 */
module CidrParse {
  import opened Text
  import opened Ipv4

  /** Why a text is not an IPv4 network, in the order the checks are made. */
  datatype ParseError =
    | TooManySlashes
    | EmptyAddress
    | WrongOctetCount(count: nat)
    | EmptyOctet
    | NonDigitOctet(octet: string)
    | OctetTooLong(octet: string)
    | LeadingZeroOctet(octet: string)
    | OctetTooLarge(value: nat)
    | InvalidPrefix(prefix: string)

  datatype Result<T> = Ok(value: T) | Err(error: ParseError)
  {
    predicate IsFailure()
    {
      Err?
    }

    function PropagateFailure<U>(): Result<U>
      requires Err?
    {
      Err(error)
    }

    function Extract(): T
      requires Ok?
    {
      value
    }
  }

  /** One octet of a dotted quad. Only the canonical numeral of a value below 256 is accepted. */
  function ParseOctet(s: string): (r: Result<Octet>)
    ensures r.Ok? ==> s == DecimalString(r.value)
  {
    if |s| == 0 then Err(EmptyOctet)
    else if !AllDigits(s) then Err(NonDigitOctet(s))
    else if |s| > 3 then Err(OctetTooLong(s))
    else if s != "0" && s[0] == '0' then Err(LeadingZeroOctet(s))
    else if DecimalValue(s) > 255 then Err(OctetTooLarge(DecimalValue(s)))
    else
      CanonicalNumeral(s);
      Ok(DecimalValue(s))
  }

  /** Every octet value is accepted in its printed form. */
  lemma OctetRoundTrip(o: Octet)
    ensures ParseOctet(DecimalString(o)) == Ok(o)
  {
    var s := DecimalString(o);
    DecimalRoundTrip(o);
    if |s| > 3 {
      Pow10Monotone(3, |s| - 1);
    }
  }

  /** A dotted-quad address. */
  function ParseAddress(s: string): (r: Result<Addr>)
    ensures r.Ok? ==> s == FormatAddress(r.value)
  {
    if |s| == 0 then Err(EmptyAddress)
    else
      var parts := Split(s, '.');
      if |parts| != 4 then Err(WrongOctetCount(|parts|))
      else
        var o0 :- ParseOctet(parts[0]);
        var o1 :- ParseOctet(parts[1]);
        var o2 :- ParseOctet(parts[2]);
        var o3 :- ParseOctet(parts[3]);
        OctetsSpelled(parts, [o0, o1, o2, o3]);
        Ok(FromOctets([o0, o1, o2, o3]))
  }

  /** Four numerals joined by dots spell the address with those octets. */
  lemma OctetsSpelled(parts: seq<string>, os: seq<Octet>)
    requires |parts| == 4 && |os| == 4
    requires forall k | 0 <= k < 4 :: parts[k] == DecimalString(os[k])
    ensures Join(parts, '.') == FormatAddress(FromOctets(os))
  {
    OctetsRoundTrip(os);
    assert parts == [DecimalString(os[0]), DecimalString(os[1]), DecimalString(os[2]), DecimalString(os[3])];
  }

  /** Every address is accepted in its printed form. */
  lemma AddressRoundTrip(a: Addr)
    ensures ParseAddress(FormatAddress(a)) == Ok(a)
  {
    var os := OctetsOf(a);
    var parts := [DecimalString(os[0]), DecimalString(os[1]), DecimalString(os[2]), DecimalString(os[3])];
    assert forall k | 0 <= k < 4 :: AllDigits(parts[k]);
    SplitJoin(parts, '.');
    OctetRoundTrip(os[0]);
    OctetRoundTrip(os[1]);
    OctetRoundTrip(os[2]);
    OctetRoundTrip(os[3]);
  }

  /** An address is accepted exactly in its printed form. */
  lemma ParseAddressIff(s: string, a: Addr)
    ensures ParseAddress(s) == Ok(a) <==> s == FormatAddress(a)
  {
    if s == FormatAddress(a) {
      AddressRoundTrip(a);
    }
  }

  /** The prefix length after the '/': ASCII digits, value at most 32. */
  function ParsePrefix(s: string): (r: Result<Prefix>)
    ensures r.Ok? ==> PrefixNumeral(s, r.value)
    ensures r.Err? ==> r.error == InvalidPrefix(s)
  {
    if |s| == 0 || !AllDigits(s) || DecimalValue(s) > 32 then Err(InvalidPrefix(s))
    else Ok(DecimalValue(s))
  }

  /** s is a decimal numeral of p, leading zeros allowed. */
  predicate PrefixNumeral(s: string, p: nat)
  {
    |s| >= 1 && AllDigits(s) && DecimalValue(s) == p
  }

  /** A numeral is accepted as a prefix exactly when its value is at most 32. */
  lemma ParsePrefixIff(s: string, p: Prefix)
    ensures ParsePrefix(s) == Ok(p) <==> PrefixNumeral(s, p)
  {
  }

  /** Unlike an octet, a prefix may carry leading zeros: `/024` reads as `/24`. */
  lemma PrefixLeadingZero(s: string)
    requires |s| >= 1
    ensures ParsePrefix("0" + s).Ok? <==> ParsePrefix(s).Ok?
    ensures ParsePrefix(s).Ok? ==> ParsePrefix("0" + s).value == ParsePrefix(s).value
  {
    if AllDigits(s) {
      LeadingZeroValue(s);
    } else {
      var i :| 0 <= i < |s| && !IsDigit(s[i]);
      assert ("0" + s)[i + 1] == s[i];
    }
  }

  /** s writes address a with prefix length p in the accepted notation: the dotted quad of a,
      then either nothing (and p is 32) or '/' and a decimal numeral of p. */
  ghost predicate Spells(s: string, a: Addr, p: Prefix)
  {
    var t := FormatAddress(a);
    || (s == t && p == 32)
    || (|s| > |t| && s[..|t| + 1] == t + "/" && PrefixNumeral(s[|t| + 1..], p))
  }

  /** `ip_network(s, strict=False)` for IPv4 text: the block of the given prefix length
      containing the written address. */
  function ParseNetwork(s: string): (r: Result<CidrBlock>)
    ensures r.Ok? ==> r.value.Valid()
    ensures r.Ok? ==> exists a: Addr :: Spells(s, a, r.value.prefix) && r.value == BlockOf(a, r.value.prefix)
  {
    var parts := Split(s, '/');
    if |parts| > 2 then Err(TooManySlashes)
    else
      var a :- ParseAddress(parts[0]);
      var p :- if |parts| == 2 then ParsePrefix(parts[1]) else Ok(32);
      assert |parts| == 2 ==> Join(parts[1..], '/') == parts[1] && s == parts[0] + "/" + parts[1];
      assert Spells(s, a, p);
      Ok(BlockOf(a, p))
  }

  /** Every spelling of an address and prefix length is accepted, and yields the block
      containing that address. */
  lemma ParseNetworkComplete(s: string, a: Addr, p: Prefix)
    requires Spells(s, a, p)
    ensures ParseNetwork(s) == Ok(BlockOf(a, p))
  {
    var t := FormatAddress(a);
    AddressRoundTrip(a);
    NoSlashInAddress(a);
    if s == t && p == 32 {
      ParseBareAddress(t, a);
    } else {
      var ds := s[|t| + 1..];
      assert s == t + "/" + ds;
      ParsePrefixIff(ds, p);
      ParseAddressWithPrefix(t, ds, a, p);
    }
  }

  lemma NoSlashInAddress(a: Addr)
    ensures '/' !in FormatAddress(a)
  {
    var t := FormatAddress(a);
    assert forall i | 0 <= i < |t| :: t[i] != '/';
  }

  /** Text without '/' is read as an address with prefix length 32. */
  lemma ParseBareAddress(t: string, a: Addr)
    requires '/' !in t && ParseAddress(t) == Ok(a)
    ensures ParseNetwork(t) == Ok(BlockOf(a, 32))
  {
    SplitWithoutSeparator(t, '/');
  }

  /** Text `t/ds` with an address t and a prefix numeral ds is read as their block. */
  lemma ParseAddressWithPrefix(t: string, ds: string, a: Addr, p: Prefix)
    requires '/' !in t && '/' !in ds
    requires ParseAddress(t) == Ok(a) && ParsePrefix(ds) == Ok(p)
    ensures ParseNetwork(t + "/" + ds) == Ok(BlockOf(a, p))
  {
    SplitAtFirstSeparator(t, '/', ds);
    SplitWithoutSeparator(ds, '/');
    assert Split(t + "/" + ds, '/') == [t, ds];
  }

  /** The parser accepts exactly the spellings of an address and prefix length, and returns
      the block of that prefix length containing the address. */
  lemma ParseNetworkIff(s: string, b: CidrBlock)
    ensures ParseNetwork(s) == Ok(b) <==> exists a: Addr :: Spells(s, a, b.prefix) && b == BlockOf(a, b.prefix)
  {
    if a: Addr :| Spells(s, a, b.prefix) && b == BlockOf(a, b.prefix) {
      ParseNetworkComplete(s, a, b.prefix);
    }
  }

  /** Non-strict parsing: `a/p` denotes the network of a, host bits cleared, and an address
      is its own network address exactly when it has no host bits. */
  lemma ParseClearsHostBits(a: Addr, p: Prefix)
    ensures ParseNetwork(FormatAddress(a) + "/" + DecimalString(p)) == Ok(CidrBlock(NetworkOf(a, p), p))
    ensures ParseNetwork(FormatAddress(a)) == Ok(CidrBlock(a, 32))
    ensures NetworkOf(a, p) == a <==> a % BlockSize(p) == 0
  {
    var t := FormatAddress(a);
    var s := t + "/" + DecimalString(p);
    DecimalRoundTrip(p);
    assert s[..|t| + 1] == t + "/" && s[|t| + 1..] == DecimalString(p);
    ParseNetworkComplete(s, a, p);
    ParseNetworkComplete(t, a, 32);
    assert NetworkOf(a, 32) == a by {
      Bits.RoundDown(a, BlockSize(32));
    }
    ValidIff(CidrBlock(a, p));
  }

  /** `str(network)`: the canonical text `network/prefix` of a block. */
  function CanonicalText(b: CidrBlock): string
  {
    FormatAddress(b.network) + "/" + DecimalString(b.prefix)
  }

  /** Re-reading the canonical text of a block gives the same block back. */
  lemma ReparseCanonical(b: CidrBlock)
    requires b.Valid()
    ensures ParseNetwork(CanonicalText(b)) == Ok(b)
  {
    ParseClearsHostBits(b.network, b.prefix);
    ValidIff(b);
  }

  /** Parsing is idempotent: whatever a text denotes, its canonical text denotes too. */
  lemma ParseIdempotent(s: string)
    requires ParseNetwork(s).Ok?
    ensures ParseNetwork(CanonicalText(ParseNetwork(s).value)) == ParseNetwork(s)
  {
    ReparseCanonical(ParseNetwork(s).value);
  }
}
