/**
 * IPv4 options (`Opt`): their wire form and the two length rules the header
 * code relies on. `length` is the value of the option-length octet (none for
 * the one-octet options, saturated at 255); `actual_length` is the number of
 * octets the option takes in the header.
 */
module Ipv4Opts {
  import opened Bits
  import opened Wrappers
  import C = Ipv4Codes
  import Ipv4Addr

  type Ipv4Address = Ipv4Addr.Ipv4Address
  type u30 = x: int | 0 <= x < 0x4000_0000

  datatype RouteRecord = RouteRecord(pointer: u8, routes: seq<Ipv4Address>)

  /** A timestamp entry; a time is kept as the 32-bit millisecond count it is sent as. */
  datatype TimestampEntry = Millis(ms: u32) | Addr(addr: Ipv4Address)

  datatype Timestamp = Timestamp(pointer: u8, overflow: C.u4, flag: C.TimestampFlag, entries: seq<TimestampEntry>)

  datatype RawOption = RawOption(optType: C.OptionType, len: Option<u8>, data: seq<u8>)

  datatype Opt =
    | Eool
    | Nop
    | Sec(classification: C.Classification, authority: seq<u8>)
    | Lsrr(route: RouteRecord)
    | Ts(ts: Timestamp)
    | ESec(format: u8, secInfo: seq<u8>)
    | Cipso(data: seq<u8>)
    | Rr(route: RouteRecord)
    | Sid(word: u16)
    | Ssrr(route: RouteRecord)
    | Zsu(data: seq<u8>)
    | Mtup(word: u16)
    | Mtur(word: u16)
    | Finn(data: seq<u8>)
    | Visa(data: seq<u8>)
    | Encode(data: seq<u8>)
    | Imitd(data: seq<u8>)
    | Eip(data: seq<u8>)
    | Tr(id: u16, outHops: u16, returnHops: u16, origAddr: Ipv4Address)
    | AddExt(data: seq<u8>)
    | RtrAlt(word: u16)
    | Sdb(data: seq<u8>)
    | Dps(data: seq<u8>)
    | Ump(data: seq<u8>)
    | Qs(func: C.u4, rateReq: C.u4, ttl: u8, nonce: u30, reserved: C.u2)
    | Raw(raw: RawOption)

  /** `Opt::option_type`. */
  function OptionTypeOf(opt: Opt): (t: C.OptionType)
    ensures !opt.Raw? ==> (opt.Eool? <==> t.Eool?)
  {
    match opt
    case Eool => C.Eool
    case Nop => C.Nop
    case Sec(_, _) => C.Sec
    case Lsrr(_) => C.Lsrr
    case Ts(_) => C.Ts
    case ESec(_, _) => C.ESec
    case Cipso(_) => C.Cipso
    case Rr(_) => C.Rr
    case Sid(_) => C.Sid
    case Ssrr(_) => C.Ssrr
    case Zsu(_) => C.Zsu
    case Mtup(_) => C.Mtup
    case Mtur(_) => C.Mtur
    case Finn(_) => C.Finn
    case Visa(_) => C.Visa
    case Encode(_) => C.Encode
    case Imitd(_) => C.Imitd
    case Eip(_) => C.Eip
    case Tr(_, _, _, _) => C.Tr
    case AddExt(_) => C.AddExt
    case RtrAlt(_) => C.RtrAlt
    case Sdb(_) => C.Sdb
    case Dps(_) => C.Dps
    case Ump(_) => C.Ump
    case Qs(_, _, _, _, _) => C.Qs
    case Raw(r) => r.optType
  }

  // ---------------------------------------------------------------------
  // Wire form (`Opt::serialize` and its helpers)
  // ---------------------------------------------------------------------

  /** A slice of addresses, four octets each. */
  function Routes(routes: seq<Ipv4Address>): (bytes: seq<u8>)
    ensures |bytes| == 4 * |routes|
  {
    if routes == [] then [] else Routes(routes[..|routes| - 1]) + routes[|routes| - 1]
  }

  /** Timestamp entries: a big-endian 32-bit time or a four-octet address each. */
  function Entries(entries: seq<TimestampEntry>): (bytes: seq<u8>)
    ensures |bytes| == 4 * |entries|
  {
    if entries == [] then []
    else
      var e := entries[|entries| - 1];
      Entries(entries[..|entries| - 1]) + (match e case Millis(ms) => BeBytes(ms, 4) case Addr(a) => a)
  }

  /** `serialize_data`: the octets after the option-length octet. */
  function Data(opt: Opt): seq<u8>
  {
    match opt
    case Sec(c, authority) => [C.ClassificationOctet(c)] + authority
    case Lsrr(rr) => [rr.pointer] + Routes(rr.routes)
    case Ts(ts) => [ts.pointer, ts.overflow * 16 + C.FlagBits(ts.flag)] + Entries(ts.entries)
    case ESec(format, info) => [format] + info
    case Rr(rr) => [rr.pointer] + Routes(rr.routes)
    case Ssrr(rr) => [rr.pointer] + Routes(rr.routes)
    case Sid(w) => BeBytes(w, 2)
    case Mtup(w) => BeBytes(w, 2)
    case Mtur(w) => BeBytes(w, 2)
    case RtrAlt(w) => BeBytes(w, 2)
    case Tr(id, o, r, a) => BeBytes(id, 2) + BeBytes(o, 2) + BeBytes(r, 2) + a
    case Qs(func, rate, ttl, nonce, reserved) =>
      [func * 16 + rate, ttl] + BeBytes(nonce * 4 + reserved, 4)
    case Eool | Nop | Raw(_) => []
    case _ => opt.data
  }

  /**
   * The octet count `length` and `actual_length` start from: none for the
   * one-octet options, otherwise the data length as the code counts it.
   * A route record counts one octet per address. A raw option has its own
   * rules and is not counted here.
   */
  function DataLen(opt: Opt): (n: Option<nat>)
    ensures n.None? <==> opt.Eool? || opt.Nop? || opt.Raw?
  {
    match opt
    case Eool | Nop | Raw(_) => None
    case Sec(_, authority) => Some(1 + |authority|)
    case Lsrr(rr) => Some(1 + |rr.routes| * 4)
    case Ts(ts) => Some(2 + |ts.entries| * 4)
    case ESec(_, info) => Some(1 + |info|)
    case Rr(rr) => Some(1 + |rr.routes|)
    case Ssrr(rr) => Some(1 + |rr.routes|)
    case Sid(_) => Some(2)
    case Mtup(_) => Some(2)
    case Mtur(_) => Some(2)
    case RtrAlt(_) => Some(2)
    case Tr(_, _, _, _) => Some(10)
    case Qs(_, _, _, _, _) => Some(6)
    case Cipso(d) => Some(|d|)
    case Zsu(d) => Some(|d|)
    case Finn(d) => Some(|d|)
    case Visa(d) => Some(|d|)
    case Encode(d) => Some(|d|)
    case Imitd(d) => Some(|d|)
    case Eip(d) => Some(|d|)
    case AddExt(d) => Some(|d|)
    case Sdb(d) => Some(|d|)
    case Dps(d) => Some(|d|)
    case Ump(d) => Some(|d|)
  }

  /** `Opt::length`: the option-length octet, if the option has one. */
  function Length(opt: Opt): (r: Option<u8>)
    ensures opt.Raw? ==> r == opt.raw.len
    ensures !opt.Raw? ==> (r.None? <==> opt.Eool? || opt.Nop?)
    ensures !opt.Raw? && r.Some? ==> r.value == Min(ActualLength(opt), 255)
  {
    if opt.Raw? then opt.raw.len
    else match DataLen(opt)
      case None => None
      case Some(n) => Some(if n > 253 then 255 else n + 2)
  }

  function Min(a: nat, b: nat): nat
  {
    if a <= b then a else b
  }

  /** `Opt::actual_length`: the octets the option occupies in the header. */
  function ActualLength(opt: Opt): (r: nat)
    ensures r >= 1
    ensures opt.Eool? || opt.Nop? ==> r == 1
  {
    if opt.Raw? then
      if opt.raw.data == [] && opt.raw.len.None? then 1 else 2 + |opt.raw.data|
    else match DataLen(opt)
      case None => 1
      case Some(n) => n + 2
  }

  /** `Opt::serialize`: the type octet, then the length octet and the data when there is a length. */
  function Serialize(opt: Opt): (bytes: seq<u8>)
    ensures |bytes| >= 1 && bytes[0] == C.Octet(OptionTypeOf(opt))
    ensures Length(opt).Some? ==> |bytes| >= 2 && bytes[1] == Length(opt).value
  {
    if opt.Raw? then
      [C.Octet(opt.raw.optType)] + (if opt.raw.len.Some? then [opt.raw.len.value] else []) + opt.raw.data
    else
      [C.Octet(OptionTypeOf(opt))] + (if Length(opt).Some? then [Length(opt).value] + Data(opt) else [])
  }

  // ---------------------------------------------------------------------
  // How the length rules relate to the wire form
  // ---------------------------------------------------------------------

  /** A route record whose length rule counts one octet per four-octet address. */
  predicate RouteCountQuirk(opt: Opt)
  {
    (opt.Rr? || opt.Ssrr?) && opt.route.routes != []
  }

  /** A raw option with data but no length octet. */
  predicate RawWithoutLength(opt: Opt)
  {
    opt.Raw? && opt.raw.len.None? && opt.raw.data != []
  }

  /** For every other option, `actual_length` is exactly the number of octets `serialize` writes. */
  lemma ActualLengthIsWireLength(opt: Opt)
    requires !RouteCountQuirk(opt) && !RawWithoutLength(opt)
    ensures ActualLength(opt) == |Serialize(opt)|
  {
    if !opt.Raw? && DataLen(opt).Some? {
      DataLenIsDataSize(opt);
    }
  }

  /** The data length the rules count is the size of `serialize_data`, except for the quirk. */
  lemma DataLenIsDataSize(opt: Opt)
    requires !opt.Raw? && DataLen(opt).Some? && !RouteCountQuirk(opt)
    ensures DataLen(opt).value == |Data(opt)|
  {
  }

  /** As written, a route record with n addresses reports 3 + n octets but writes 3 + 4n. */
  lemma RouteRecordUndercounts(opt: Opt)
    requires opt.Rr? || opt.Ssrr?
    ensures ActualLength(opt) == 3 + |opt.route.routes|
    ensures |Serialize(opt)| == 3 + 4 * |opt.route.routes|
  {
  }

  /** As written, a raw option with data and no length octet is counted one octet too long. */
  lemma RawWithoutLengthOvercounts(opt: Opt)
    requires RawWithoutLength(opt)
    ensures ActualLength(opt) == |Serialize(opt)| + 1
  {
  }

  /** The length octet is the option size whenever that size fits in an octet. */
  lemma LengthOctetIsSize(opt: Opt)
    requires !opt.Raw? && !opt.Eool? && !opt.Nop? && !RouteCountQuirk(opt)
    ensures |Serialize(opt)| <= 255 ==> Length(opt) == Some(|Serialize(opt)|)
    ensures |Serialize(opt)| > 255 ==> Length(opt) == Some(255)
  {
    ActualLengthIsWireLength(opt);
  }
}
