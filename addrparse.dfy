/**
 * The text parsers shared by every address type: `parse_subnet`,
 * `parse_hw` and `parse_ipv4`, with their error types.  (`parse_ipv6`
 * lives in the `Ipv6Parse` module.)
 */
module AddrParse {
  import opened Wrappers
  import opened Bits
  import Text
  import Ipv4Addr
  import Hw

  /** `AddressParseError`: a failed integer parse, or the wrong number of parts. */
  datatype AddressParseError = ParseInt(kind: Text.IntError) | InvalidLength

  /** `SubnetParseError`: the address errors plus a prefix length above the width. */
  datatype SubnetParseError = SubnetParseInt(intKind: Text.IntError) | SubnetInvalidLength | InvalidPrefixLen

  /** `From<AddressParseError> for SubnetParseError`: the same error, never `InvalidPrefixLen`. */
  function FromAddressError(e: AddressParseError): (r: SubnetParseError)
    ensures !r.InvalidPrefixLen?
    ensures r.SubnetParseInt? <==> e.ParseInt?
    ensures r.SubnetParseInt? ==> r.intKind == e.kind
  {
    match e
    case ParseInt(k) => SubnetParseInt(k)
    case InvalidLength => SubnetInvalidLength
  }

  // ---------------------------------------------------------------------
  // parse_subnet
  // ---------------------------------------------------------------------

  /** `u32::from_str` of the prefix length. */
  function PrefixLenText(t: string): Result<nat, Text.IntError>
  {
    Text.ParseUnsigned(t, 10, U32_MAX)
  }

  /**
   * `parse_subnet`: the text up to the last '/' is the address and the rest
   * a decimal prefix length no larger than `maxPrefixLen`; without a '/'
   * the whole text is the address and the prefix is the full width.
   */
  function ParseSubnet<R>(s: string, parseAddr: string -> Result<R, AddressParseError>, maxPrefixLen: nat)
    : (r: Result<(R, nat), SubnetParseError>)
    ensures r.Ok? ==> r.value.1 <= maxPrefixLen
  {
    match Text.LastIndexOf(s, '/')
    case Some(pos) =>
      (match parseAddr(s[..pos])
       case Err(e) => Err(FromAddressError(e))
       case Ok(a) =>
         match PrefixLenText(s[pos + 1..])
         case Err(k) => Err(SubnetParseInt(k))
         case Ok(p) => if p > maxPrefixLen then Err(InvalidPrefixLen) else Ok((a, p)))
    case None =>
      match parseAddr(s)
      case Err(e) => Err(FromAddressError(e))
      case Ok(a) => Ok((a, maxPrefixLen))
  }

  /** Without a '/', the subnet is the whole address at full width. */
  lemma ParseSubnetNoSlash<R>(s: string, parseAddr: string -> Result<R, AddressParseError>, maxPrefixLen: nat)
    requires Text.Avoids(s, {'/'})
    ensures parseAddr(s).Ok? ==> ParseSubnet(s, parseAddr, maxPrefixLen) == Ok((parseAddr(s).value, maxPrefixLen))
    ensures parseAddr(s).Err? ==> ParseSubnet(s, parseAddr, maxPrefixLen) == Err(FromAddressError(parseAddr(s).error))
  {
    LastIndexOfNone(s, '/');
  }

  lemma {:induction false} LastIndexOfNone(s: string, c: char)
    requires Text.Avoids(s, {c})
    ensures Text.LastIndexOf(s, c) == None
  {
    if s != [] {
      assert s[|s| - 1] !in {c};
      LastIndexOfNone(s[..|s| - 1], c);
    }
  }

  lemma {:induction false} LastIndexOfAfter(a: string, d: string, c: char)
    requires Text.Avoids(d, {c})
    ensures Text.LastIndexOf(a + [c] + d, c) == Some(|a|)
  {
    if d == [] {
      assert a + [c] + d == a + [c];
    } else {
      var s := a + [c] + d;
      assert s[|s| - 1] == d[|d| - 1] && d[|d| - 1] !in {c};
      assert s[..|s| - 1] == a + [c] + d[..|d| - 1];
      LastIndexOfAfter(a, d[..|d| - 1], c);
    }
  }

  /**
   * With "addr/len" split at the last '/', the subnet parses exactly when
   * the address does, the length is a decimal `u32` and it is within the
   * width; a length above the width is `InvalidPrefixLen`.
   */
  lemma ParseSubnetSlash<R>(a: string, d: string, parseAddr: string -> Result<R, AddressParseError>, maxPrefixLen: nat)
    requires Text.Avoids(d, {'/'})
    ensures var r := ParseSubnet(a + "/" + d, parseAddr, maxPrefixLen);
      (r.Ok? <==> parseAddr(a).Ok? && PrefixLenText(d).Ok? && PrefixLenText(d).value <= maxPrefixLen) &&
      (r.Ok? ==> r.value == (parseAddr(a).value, PrefixLenText(d).value)) &&
      (parseAddr(a).Err? ==> r == Err(FromAddressError(parseAddr(a).error))) &&
      (parseAddr(a).Ok? && PrefixLenText(d).Ok? && PrefixLenText(d).value > maxPrefixLen ==> r == Err(InvalidPrefixLen))
  {
    var s := a + "/" + d;
    LastIndexOfAfter(a, d, '/');
    assert s[..|a|] == a;
    assert s[|a| + 1..] == d;
  }

  // ---------------------------------------------------------------------
  // parse_ipv4
  // ---------------------------------------------------------------------

  /** `u8::from_str` of one dotted part. */
  function DecOctet(part: string): (r: Result<u8, AddressParseError>)
    ensures r.Ok? <==> Text.ParseUnsigned(part, 10, 0xff).Ok?
    ensures r.Ok? ==> r.value == Text.ParseUnsigned(part, 10, 0xff).value
  {
    match Text.ParseUnsigned(part, 10, 0xff)
    case Ok(v) => Ok(v)
    case Err(k) => Err(ParseInt(k))
  }

  /**
   * Parts `i..4` of the dotted text, each taken from the iterator in turn:
   * a missing part is `InvalidLength`, a bad part its parse error, and a
   * fifth part `InvalidLength`.
   */
  function Octets(parts: seq<string>, i: nat): (r: Result<seq<u8>, AddressParseError>)
    requires i <= 4
    ensures r.Ok? ==> |r.value| == 4 - i
    decreases 4 - i
  {
    if i == 4 then (if |parts| > 4 then Err(InvalidLength) else Ok([]))
    else if i >= |parts| then Err(InvalidLength)
    else
      match DecOctet(parts[i])
      case Err(e) => Err(e)
      case Ok(b) =>
        match Octets(parts, i + 1)
        case Err(e) => Err(e)
        case Ok(rest) => Ok([b] + rest)
  }

  /** `parse_ipv4`. */
  function ParseIpv4(s: string): (r: Result<Ipv4Addr.Ipv4Address, AddressParseError>)
  {
    match Octets(Text.Split(s, {'.'}), 0)
    case Err(e) => Err(e)
    case Ok(b) => Ok(b)
  }

  lemma {:induction false} OctetsMeaning(parts: seq<string>, i: nat)
    requires i <= 4 && i <= |parts|
    ensures Octets(parts, i).Ok? <==> |parts| == 4 && forall j :: i <= j < 4 ==> DecOctet(parts[j]).Ok?
    ensures Octets(parts, i).Ok? ==> forall j :: i <= j < 4 ==> Octets(parts, i).value[j - i] == DecOctet(parts[j]).value
    decreases 4 - i
  {
    if i < 4 && i < |parts| {
      OctetsMeaning(parts, i + 1);
      match DecOctet(parts[i])
      case Err(_) =>
      case Ok(b) =>
        match Octets(parts, i + 1)
        case Err(_) =>
        case Ok(rest) =>
          assert Octets(parts, i).value == [b] + rest;
    }
  }

  /**
   * A dotted address parses exactly when it has four parts that are each a
   * decimal octet, and the octets are the parts' values.
   */
  lemma ParseIpv4Exact(s: string)
    ensures var parts := Text.Split(s, {'.'});
      (ParseIpv4(s).Ok? <==> |parts| == 4 && forall j :: 0 <= j < 4 ==> DecOctet(parts[j]).Ok?) &&
      (ParseIpv4(s).Ok? ==> forall j :: 0 <= j < 4 ==> ParseIpv4(s).value[j] == DecOctet(parts[j]).value)
  {
    OctetsMeaning(Text.Split(s, {'.'}), 0);
  }

  /** Parsing the `Display` text of an IPv4 address gives the address back. */
  lemma ParseIpv4Display(a: Ipv4Addr.Ipv4Address)
    ensures ParseIpv4(Ipv4Addr.Display(a)) == Ok(a)
  {
    var parts := [Text.Format(a[0], 10), Text.Format(a[1], 10), Text.Format(a[2], 10), Text.Format(a[3], 10)];
    forall j | 0 <= j < 4
      ensures Text.Avoids(parts[j], {'.'}) && DecOctet(parts[j]) == Ok(a[j])
    {
      Text.FormatRoundTrip(a[j], 10, 0xff);
      Text.DigitTextAvoids(parts[j], {'.'});
    }
    Text.SplitJoin(parts, '.', {'.'});
    assert Text.Split(Ipv4Addr.Display(a), {'.'}) == parts;
    ParseIpv4Exact(Ipv4Addr.Display(a));
    var r := ParseIpv4(Ipv4Addr.Display(a));
    assert r.Ok?;
    assert r.value == a by {
      assert forall j :: 0 <= j < 4 ==> r.value[j] == a[j];
    }
  }

  lemma ParseIpv4TooShort()
    ensures ParseIpv4("1.2.3") == Err(InvalidLength)
  {
    SplitExample(["1", "2", "3"], '.', "1.2.3");
    assert DecOctet("1") == Ok(1);
    assert DecOctet("2") == Ok(2);
    assert DecOctet("3") == Ok(3);
  }

  lemma ParseIpv4OctetOverflow()
    ensures ParseIpv4("1.2.3.256") == Err(ParseInt(Text.PosOverflow))
  {
    var parts := ["1", "2", "3", "256"];
    SplitExample(parts, '.', "1.2.3.256");
    OctetOverflow();
    assert Octets(parts, 3) == Err(ParseInt(Text.PosOverflow));
    assert DecOctet("1") == Ok(1);
    assert DecOctet("2") == Ok(2);
    assert DecOctet("3") == Ok(3);
  }

  /** "256" does not fit an octet. */
  lemma OctetOverflow()
    ensures DecOctet("256") == Err(ParseInt(Text.PosOverflow))
  {
    assert "256"[..2] == "25" && "25"[..1] == "2";
    assert Text.Digits("2", 10, 0xff) == Ok(2);
    assert Text.Digits("25", 10, 0xff) == Ok(25);
    assert Text.Digits("256", 10, 0xff) == Err(Text.PosOverflow);
  }

  /** `parse_ipv4_subnet`. */
  function ParseIpv4Subnet(s: string): (r: Result<(Ipv4Addr.Ipv4Address, nat), SubnetParseError>)
    ensures r.Ok? ==> r.value.1 <= 32
  {
    ParseSubnet(s, ParseIpv4, 32)
  }

  /** "a.b.c.d/p" parses back to the address and `p` when `p <= 32`, and is rejected otherwise. */
  lemma ParseIpv4SubnetDisplay(a: Ipv4Addr.Ipv4Address, p: nat)
    ensures p <= 32 ==> ParseIpv4Subnet(Ipv4Addr.Display(a) + "/" + Text.Format(p, 10)) == Ok((a, p))
    ensures p > 32 && p <= U32_MAX ==> ParseIpv4Subnet(Ipv4Addr.Display(a) + "/" + Text.Format(p, 10)) == Err(InvalidPrefixLen)
  {
    var d := Text.Format(p, 10);
    ParseIpv4Display(a);
    if p <= U32_MAX {
      Text.FormatRoundTrip(p, 10, U32_MAX);
      Text.DigitTextAvoids(d, {'/'});
      ParseSubnetSlash(Ipv4Addr.Display(a), d, ParseIpv4, 32);
    }
  }

  // ---------------------------------------------------------------------
  // parse_hw
  // ---------------------------------------------------------------------

  /** `s.split(|c| c == ':' || c == '-')`. */
  function HwParts(s: string): (parts: seq<string>)
    ensures |parts| >= 1
  {
    Text.Split(s, {':', '-'})
  }

  /** `u8::from_str_radix(part, 16)`. */
  function HexOctet(part: string): (r: Result<u8, AddressParseError>)
    ensures r.Ok? <==> Text.ParseUnsigned(part, 16, 0xff).Ok?
    ensures r.Ok? ==> r.value == Text.ParseUnsigned(part, 16, 0xff).value
  {
    match Text.ParseUnsigned(part, 16, 0xff)
    case Ok(v) => Ok(v)
    case Err(k) => Err(ParseInt(k))
  }

  /**
   * How many of the `n` bytes `parse_hw` writes, starting from byte `i`:
   * it stops at the first missing or malformed part.
   */
  function Filled(parts: seq<string>, n: nat, i: nat): (k: nat)
    requires i <= n
    ensures i <= k <= n
    ensures k == i || k <= |parts|
    ensures forall j :: i <= j < k ==> j < |parts| && HexOctet(parts[j]).Ok?
    ensures k < n ==> k >= |parts| || HexOctet(parts[k]).Err?
    decreases n - i
  {
    if i == n then n
    else if i >= |parts| || HexOctet(parts[i]).Err? then i
    else Filled(parts, n, i + 1)
  }

  /** What `parse_hw` returns for `n` bytes. */
  function HwStatus(parts: seq<string>, n: nat): (r: Result<(), AddressParseError>)
  {
    var k := Filled(parts, n, 0);
    if k < n then (if k >= |parts| then Err(InvalidLength) else Err(HexOctet(parts[k]).error))
    else if |parts| > n then Err(InvalidLength)
    else Ok(())
  }

  /** The buffer after `parse_hw`: the bytes it got to, then the old contents. */
  function HwWritten(parts: seq<string>, before: seq<u8>): (after: seq<u8>)
    ensures |after| == |before|
  {
    var k := Filled(parts, |before|, 0);
    seq(|before|, j requires 0 <= j < |before| => if j < k then HexOctet(parts[j]).value else before[j])
  }

  /** `parse_hw(s, addr)`: fills `addr` from the hex parts of `s`. */
  method ParseHw(s: string, addr: array<u8>) returns (r: Result<(), AddressParseError>)
    modifies addr
    ensures r == HwStatus(HwParts(s), addr.Length)
    ensures addr[..] == HwWritten(HwParts(s), old(addr[..]))
  {
    var parts := HwParts(s);
    ghost var before := addr[..];
    ghost var k := Filled(parts, addr.Length, 0);
    for i := 0 to addr.Length
      invariant Filled(parts, addr.Length, i) == k
      invariant forall j :: 0 <= j < i ==> addr[j] == HexOctet(parts[j]).value
      invariant forall j :: i <= j < addr.Length ==> addr[j] == before[j]
    {
      if i >= |parts| {
        r := Err(InvalidLength);
        assert addr[..] == HwWritten(parts, before);
        return;
      }
      var b := HexOctet(parts[i]);
      if b.Err? {
        r := Err(b.error);
        assert addr[..] == HwWritten(parts, before);
        return;
      }
      addr[i] := b.value;
    }
    assert addr[..] == HwWritten(parts, before);
    if |parts| > addr.Length {
      return Err(InvalidLength);
    }
    return Ok(());
  }

  /** `HwAddress::from_str`: `parse_hw` into a zeroed buffer. */
  function HwFromStr(s: string, n: nat): (r: Result<seq<u8>, AddressParseError>)
    ensures r.Ok? ==> |r.value| == n
  {
    match HwStatus(HwParts(s), n)
    case Ok(_) => Ok(HwWritten(HwParts(s), Hw.Fill(n, 0)))
    case Err(e) => Err(e)
  }

  /**
   * `parse_hw` succeeds exactly when there are `n` parts, each a hex byte,
   * and then the buffer holds their values.
   */
  lemma HwStatusExact(parts: seq<string>, before: seq<u8>)
    ensures HwStatus(parts, |before|).Ok? <==> |parts| == |before| && forall j :: 0 <= j < |parts| ==> HexOctet(parts[j]).Ok?
    ensures HwStatus(parts, |before|).Ok? ==> forall j :: 0 <= j < |before| ==> HwWritten(parts, before)[j] == HexOctet(parts[j]).value
  {
    var n := |before|;
    if |parts| == n && (forall j :: 0 <= j < |parts| ==> HexOctet(parts[j]).Ok?) {
      FilledAll(parts, n, 0);
    }
  }

  lemma {:induction false} FilledAll(parts: seq<string>, n: nat, i: nat)
    requires i <= n <= |parts| && forall j :: i <= j < n ==> HexOctet(parts[j]).Ok?
    ensures Filled(parts, n, i) == n
    decreases n - i
  {
    if i < n {
      FilledAll(parts, n, i + 1);
    }
  }

  /** Parsing the `Display` text of a hardware address gives the address back. */
  lemma HwParseDisplay(a: Hw.HwAddress)
    requires |a| >= 1
    ensures HwFromStr(Text.Join(Hw.HexBytes(a), ':'), |a|) == Ok(a)
  {
    var hs := Hw.HexBytes(a);
    forall j | 0 <= j < |a|
      ensures Text.Avoids(hs[j], {':', '-'}) && HexOctet(hs[j]) == Ok(a[j])
    {
      Text.FormatHex2RoundTrip(a[j], 0xff);
      Text.DigitTextAvoids(hs[j], {':', '-'});
    }
    Text.SplitJoin(hs, ':', {':', '-'});
    HwStatusExact(hs, Hw.Fill(|a|, 0));
    assert HwWritten(hs, Hw.Fill(|a|, 0)) == a;
  }

  /** Splitting a text written as parts joined by `sep`, for the examples. */
  lemma SplitExample(parts: seq<string>, sep: char, s: string)
    requires |parts| >= 1 && s == Text.Join(parts, sep)
    requires Text.AllAvoid(parts, {sep})
    ensures Text.Split(s, {sep}) == parts
  {
    Text.SplitJoin(parts, sep, {sep});
  }

  lemma HwParseDash()
    ensures HwFromStr("12-34", 2) == Ok([0x12, 0x34])
  {
    assert Text.Join(["12", "34"], '-') == "12-34";
    Text.SplitJoin(["12", "34"], '-', {':', '-'});
    assert "12"[..1] == "1" && "34"[..1] == "3";
    assert Text.Digits("1", 16, 0xff) == Ok(1);
    assert HexOctet("12") == Ok(0x12);
    assert Text.Digits("3", 16, 0xff) == Ok(3);
    assert HexOctet("34") == Ok(0x34);
    HwStatusExact(["12", "34"], Hw.Fill(2, 0));
    assert HwWritten(["12", "34"], Hw.Fill(2, 0)) == [0x12, 0x34];
  }

  lemma HwParseTooShort()
    ensures HwFromStr("12", 2) == Err(InvalidLength)
  {
    assert Text.Avoids("12", {':', '-'});
    Text.SplitOne("12", {':', '-'});
    assert "12"[..1] == "1";
    assert Text.Digits("1", 16, 0xff) == Ok(1);
    assert HexOctet("12") == Ok(0x12);
    assert Filled(["12"], 2, 1) == 1;
    assert Filled(["12"], 2, 0) == 1;
  }

  lemma HwParseBadDigit()
    ensures HwFromStr("12:xy", 2) == Err(ParseInt(Text.InvalidDigit))
  {
    assert Text.Join(["12", "xy"], ':') == "12:xy";
    Text.SplitJoin(["12", "xy"], ':', {':', '-'});
    assert "12"[..1] == "1" && "xy"[..1] == "x";
    assert Text.Digits("1", 16, 0xff) == Ok(1);
    assert HexOctet("12") == Ok(0x12);
    assert Text.Digits("x", 16, 0xff) == Err(Text.InvalidDigit);
    assert HexOctet("xy") == Err(ParseInt(Text.InvalidDigit));
    assert Filled(["12", "xy"], 2, 1) == 1;
    assert Filled(["12", "xy"], 2, 0) == 1;
  }
}
