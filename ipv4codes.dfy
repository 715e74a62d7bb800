/**
 * The code tables of the IPv4 options: the option-type octet with its
 * copied flag, option class and option number (section 3.1 of RFC 791),
 * the security classification levels, and the timestamp flags. Each table
 * maps a raw field to a named value and back; a raw value with no name is
 * kept as it is.
 */
module Ipv4Codes {
  import opened Bits

  type u2 = x: int | 0 <= x < 4
  type u4 = x: int | 0 <= x < 16
  type u5 = x: int | 0 <= x < 32

  // ---------------------------------------------------------------------
  // Option class (two bits)
  // ---------------------------------------------------------------------

  datatype OptionClass = Control | DebugMeas | Reserved(bits: u2)

  /** `From<OptionClass> for U2`. */
  function ClassBits(c: OptionClass): u2
  {
    match c
    case DebugMeas => 0
    case Control => 2
    case Reserved(v) => v
  }

  /** `From<U2> for OptionClass`: 0 and 2 are named, 1 and 3 are reserved. */
  function ClassFromBits(v: u2): (c: OptionClass)
    ensures ClassBits(c) == v
    ensures c.Reserved? <==> v == 1 || v == 3
  {
    if v == 0 then DebugMeas else if v == 2 then Control else Reserved(v)
  }

  /** The classes `From<U2>` produces: `Reserved` only for the two reserved codes. */
  predicate CanonicalClass(c: OptionClass)
  {
    c.Reserved? ==> c.bits == 1 || c.bits == 3
  }

  lemma ClassRoundTrip(c: OptionClass)
    requires CanonicalClass(c)
    ensures ClassFromBits(ClassBits(c)) == c
  {
  }

  // ---------------------------------------------------------------------
  // Option type (the first octet of every option)
  // ---------------------------------------------------------------------

  datatype OptionType =
    | Eool | Nop | Sec | Lsrr | Ts | ESec | Cipso | Rr | Sid | Ssrr | Zsu | Mtup | Mtur
    | Finn | Visa | Encode | Imitd | Eip | Tr | AddExt | RtrAlt | Sdb | Dps | Ump | Qs
    | Unspecified(val: u8)

  /** `OptionType::octet`. */
  function Octet(t: OptionType): u8
  {
    match t
    case Eool => 0
    case Nop => 1
    case Sec => 130
    case Lsrr => 131
    case Ts => 68
    case ESec => 133
    case Cipso => 134
    case Rr => 7
    case Sid => 136
    case Ssrr => 137
    case Zsu => 10
    case Mtup => 11
    case Mtur => 12
    case Finn => 205
    case Visa => 142
    case Encode => 15
    case Imitd => 144
    case Eip => 145
    case Tr => 82
    case AddExt => 147
    case RtrAlt => 148
    case Sdb => 149
    case Dps => 151
    case Ump => 152
    case Qs => 25
    case Unspecified(v) => v
  }

  /** `From<u8> for OptionType`: the octet of the result is the input, for every byte. */
  function FromOctet(b: u8): (t: OptionType)
    ensures Octet(t) == b
  {
    match b
    case 0 => Eool
    case 1 => Nop
    case 130 => Sec
    case 131 => Lsrr
    case 68 => Ts
    case 133 => ESec
    case 134 => Cipso
    case 7 => Rr
    case 136 => Sid
    case 137 => Ssrr
    case 10 => Zsu
    case 11 => Mtup
    case 12 => Mtur
    case 205 => Finn
    case 142 => Visa
    case 15 => Encode
    case 144 => Imitd
    case 145 => Eip
    case 82 => Tr
    case 147 => AddExt
    case 148 => RtrAlt
    case 149 => Sdb
    case 151 => Dps
    case 152 => Ump
    case 25 => Qs
    case _ => OptionType.Unspecified(b)
  }

  /** The option types `From<u8>` produces: `Unspecified` only for an octet with no name. */
  predicate CanonicalType(t: OptionType)
  {
    t.Unspecified? ==> FromOctet(t.val).Unspecified?
  }

  lemma TypeRoundTrip(t: OptionType)
    requires CanonicalType(t)
    ensures FromOctet(Octet(t)) == t
  {
  }

  /** `OptionType::copied`; for an unnamed octet, its top bit. */
  function Copied(t: OptionType): bool
  {
    match t
    case Eool | Nop | Ts | Rr | Zsu | Mtup | Mtur | Encode | Tr | Qs => false
    case Unspecified(v) => v >= 0x80
    case _ => true
  }

  /** `OptionType::class`; for an unnamed octet, bits 5 and 6. */
  function Class(t: OptionType): OptionClass
  {
    match t
    case Ts | Finn | Tr => Control
    case Unspecified(v) => ClassFromBits((v / 32) % 4)
    case _ => DebugMeas
  }

  /** `OptionType::number`; for an unnamed octet, its low five bits. */
  function Number(t: OptionType): u5
  {
    match t
    case Eool => 0
    case Nop => 1
    case Sec => 2
    case Lsrr => 3
    case Ts => 4
    case ESec => 5
    case Cipso => 6
    case Rr => 7
    case Sid => 8
    case Ssrr => 9
    case Zsu => 10
    case Mtup => 11
    case Mtur => 12
    case Finn => 13
    case Visa => 14
    case Encode => 15
    case Imitd => 16
    case Eip => 17
    case Tr => 18
    case AddExt => 19
    case RtrAlt => 20
    case Sdb => 21
    case Dps => 23
    case Ump => 24
    case Qs => 25
    case Unspecified(v) => v % 32
  }

  /** The octet of an option type is its copied flag, class and number laid out as in RFC 791. */
  function FieldsOctet(copied: bool, cls: OptionClass, number: u5): (b: u8)
    ensures b / 0x80 == (if copied then 1 else 0)
    ensures (b / 32) % 4 == ClassBits(cls) && b % 32 == number
  {
    // `copied | class << 5 | number`: the three fields occupy disjoint bits.
    (if copied then 0x80 else 0) + 32 * ClassBits(cls) + number
  }

  /** `OptionType::new`. */
  function New(copied: bool, cls: OptionClass, number: u5): OptionType
  {
    FromOctet(FieldsOctet(copied, cls, number))
  }

  /** The three accessors agree with the octet, for the named types as for any other. */
  lemma OctetFields(t: OptionType)
    ensures Octet(t) == FieldsOctet(Copied(t), Class(t), Number(t))
  {
    if t.Unspecified? {
      var v := t.val;
      DivModNested(v, 32, 4);
      assert v == 0x80 * (v / 0x80) + v % 0x80;
    }
  }

  /** Reading the fields of any octet. */
  lemma FieldsOfOctet(b: u8)
    ensures Copied(FromOctet(b)) == (b >= 0x80)
    ensures ClassBits(Class(FromOctet(b))) == (b / 32) % 4
    ensures Number(FromOctet(b)) == b % 32
    ensures CanonicalClass(Class(FromOctet(b)))
  {
    var t := FromOctet(b);
    OctetFields(t);
  }

  /** `new` builds a type whose accessors give back what it was built from. */
  lemma NewFields(copied: bool, cls: OptionClass, number: u5)
    ensures Copied(New(copied, cls, number)) == copied
    ensures Number(New(copied, cls, number)) == number
    ensures CanonicalClass(cls) ==> Class(New(copied, cls, number)) == cls
  {
    var b := FieldsOctet(copied, cls, number);
    FieldsOfOctet(b);
    var c := Class(FromOctet(b));
    if CanonicalClass(cls) {
      ClassRoundTrip(c);
      ClassRoundTrip(cls);
    }
  }

  /** Every canonical option type is `new` of its own fields. */
  lemma NewOfFields(t: OptionType)
    requires CanonicalType(t)
    ensures New(Copied(t), Class(t), Number(t)) == t
  {
    OctetFields(t);
    TypeRoundTrip(t);
  }

  // ---------------------------------------------------------------------
  // Security classification (RFC 1108 levels)
  // ---------------------------------------------------------------------

  datatype Classification =
    | Unclassified | Confidential | Secret | TopSecret
    | Reserved1 | Reserved2 | Reserved3 | Reserved4
    | Unspecified(val: u8)

  /** `From<Classification> for u8`. */
  function ClassificationOctet(c: Classification): u8
  {
    match c
    case Unclassified => 0xAB
    case Confidential => 0x96
    case Secret => 0x5A
    case TopSecret => 0x3D
    case Reserved1 => 0xF1
    case Reserved2 => 0xCC
    case Reserved3 => 0x66
    case Reserved4 => 0x01
    case Unspecified(v) => v
  }

  /** `From<u8> for Classification`: the octet of the result is the input, for every byte. */
  function ClassificationFromOctet(b: u8): (c: Classification)
    ensures ClassificationOctet(c) == b
  {
    match b
    case 0x01 => Reserved4
    case 0x3D => TopSecret
    case 0x5A => Secret
    case 0x96 => Confidential
    case 0x66 => Reserved3
    case 0xCC => Reserved2
    case 0xAB => Unclassified
    case 0xF1 => Reserved1
    case _ => Classification.Unspecified(b)
  }

  predicate CanonicalClassification(c: Classification)
  {
    c.Unspecified? ==> ClassificationFromOctet(c.val).Unspecified?
  }

  lemma ClassificationRoundTrip(c: Classification)
    requires CanonicalClassification(c)
    ensures ClassificationFromOctet(ClassificationOctet(c)) == c
  {
  }

  // ---------------------------------------------------------------------
  // Timestamp flag (four bits)
  // ---------------------------------------------------------------------

  datatype TimestampFlag = TsOnly | AddrAndTs | PrespecifiedAddrs | Unknown(bits: u4)

  /** `From<TimestampFlag> for U4`. */
  function FlagBits(f: TimestampFlag): u4
  {
    match f
    case TsOnly => 0
    case AddrAndTs => 1
    case PrespecifiedAddrs => 3
    case Unknown(v) => v
  }

  /** `From<U4> for TimestampFlag`: 0, 1 and 3 are named. */
  function FlagFromBits(v: u4): (f: TimestampFlag)
    ensures FlagBits(f) == v
    ensures f.Unknown? <==> v != 0 && v != 1 && v != 3
  {
    if v == 0 then TsOnly else if v == 1 then AddrAndTs else if v == 3 then PrespecifiedAddrs else Unknown(v)
  }

  predicate CanonicalFlag(f: TimestampFlag)
  {
    f.Unknown? ==> f.bits != 0 && f.bits != 1 && f.bits != 3
  }

  lemma FlagRoundTrip(f: TimestampFlag)
    requires CanonicalFlag(f)
    ensures FlagFromBits(FlagBits(f)) == f
  {
  }
}
