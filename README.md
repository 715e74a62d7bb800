# sniffle core, modelled in Dafny

sniffle is a Rust library for capturing, dissecting and crafting network
packets. This project models the parts of it that compute on bytes and
addresses, and proves properties of them:

- bit packing of narrow unsigned fields (`BitPack`) and the byte-level
  decoders built on it (`DecodeBuf`, the integer and slice decoders);
- the 16-bit ones'-complement checksum writer used by IPv4;
- address types (hardware, MAC, IPv4, IPv6), their subnets and address
  iterators, their text forms and the parsers for those forms;
- the IPv4 header: option code tables, option lengths, padding, dissection
  of the header and its options, serialisation, checksum and
  `make_canonical`;
- the Ethernet II header and trailer;
- the dissector tables that choose which protocol parses a payload;
- the timestamp arithmetic of the pcapng reader (`ts_calc`);
- the `IntervalSet` of half-open integer ranges;
- the `bytes!` hex literal decoder.

Bytes are integers 0..255, addresses are byte sequences read big-endian, and
bitwise operators are defined bit by bit on natural numbers (module `Bits`).
Fixed-width Rust integers are modelled as bounded naturals with their
wrap-around (`wrapping_add`, shifts, `!`) or saturation written out. Where
the Rust code would panic (index out of bounds, a debug-build overflow, an
`unwrap` on `None`) the model returns an explicit failure value (`None` or a
`Panic` outcome) rather than demanding that callers avoid it, except where
"## Left out" lists a precondition. Mutable Rust objects
(`U16OnesComplement`, `DecodeBuf` cursors, `AddressIter`, the `Ipv4` and
`EthernetII` PDUs, dissector tables, `IntervalSet`) are Dafny classes whose
methods update fields; the pure computations are functions.

Where the code does something other than what its documentation, its tests
or evident intent call for, the model keeps the code as written under a name
ending in `AsWritten` (or states the case as a lemma) and, beside it, a
corrected definition with the intended property proved; the rest of the
model uses the corrected definition. These cases are listed under
"## Findings".

## Model

| member | source | states |
|---|---|---|
| BitPack.PackPairIsShiftOr | ende/src/bitpack.rs:260-262 | for in-range fields, `(l << bits(r)) \| r` equals `l·2^bits(r) + r` and fits in the sum of the widths |
| BitPack.UnpackPairIsShiftAnd | ende/src/bitpack.rs:264-269 | unpack is `((p >> bits(r)) & MAX_l, p & MAX_r)` and each component is below its width |
| BitPack.UnpackPackPair | ende/src/bitpack.rs:260-269 | unpack(pack((l, r))) == (l, r) for fields within their widths |
| BitPack.PackUnpackPair | ende/src/bitpack.rs:260-269 | pack(unpack(p)) == p for every p that fits the packed width |
| BitPack.UnpackTuple | ende/src/bitpack.rs:13-42 | unpacking a tuple yields one field per declared width |
| BitPack.PackTupleBound | ende/src/bitpack.rs:13-42 | a tuple of in-range fields packs below 2^(sum of widths) |
| BitPack.UnpackPackTuple | ende/src/bitpack.rs:13-42 | unpack(pack(fields)) == fields for singleton and n-tuples (`pack(first, pack(rest))`) |
| BitPack.PackUnpackTuple | ende/src/bitpack.rs:13-42 | unpacked fields fit their widths and pack back to the input |
| Decode.Cursor.constructor | ende/src/decode.rs:18-19 | a cursor starts with the whole buffer remaining |
| Decode.Cursor.Skip | ende/src/decode.rs:19-26 | `NeedMore` and nothing consumed when n exceeds the remainder; otherwise exactly n bytes consumed |
| Decode.Cursor.DecodeU8 | ende/src/decode.rs:177-184 | `NeedMore` on an empty buffer; otherwise the first byte, consuming one |
| Decode.Cursor.DecodeU8Slice | ende/src/decode.rs:186-193 | `NeedMore` and nothing changed when fewer bytes remain than the slice holds; otherwise the slice is the next bytes and they are consumed |
| Decode.Cursor.DecodeU16Be | ende/src/decode.rs:217-224 | needs 2 bytes; yields b0·256 + b1 |
| Decode.Cursor.DecodeU16Le | ende/src/decode.rs:238-245 | needs 2 bytes; yields b1·256 + b0 |
| Decode.Cursor.DecodeU16BeSlice | ende/src/decode.rs:105-115 | elements are decoded in order; it fails with `NeedMore` exactly when the buffer is short, after filling the elements that fit and leaving the rest unchanged |
| Decode.Cursor.DecodeU24Be | ende/src/decode.rs:636-647 | needs 3 bytes; yields their big-endian value, below 2^24 |
| Decode.Cursor.DecodeU24Le | ende/src/decode.rs:649-660 | needs 3 bytes; yields the value the code computes (see Findings) |
| Decode.Cursor.DecodeU48Le | ende/src/decode.rs:701-712 | needs 8 bytes, consumes 6; yields the value the code computes (see Findings) |
| Decode.Cursor.DecodePackedU8 | ende/src/decode.rs:936-944 | a bit-packed byte is decoded as u8 then unpacked; packing the fields gives the byte back |
| Decode.Cursor.DecodePackedU16Be | ende/src/decode.rs:946-954 | a bit-packed big-endian u16 is decoded then unpacked; packing gives the word back |
| Decode.Ipv4HeaderFieldsExample | ende/src/decode.rs:1053-1090 | 0x45 unpacks as version 4, length 5; 0x4000 as flags 2, offset 0; 0x00 as dscp 0, ecn 0 |
| Decode.U24LeAsWritten | ende/src/decode.rs:649-660 | the code's little-endian U24 value is below 2^24 |
| Decode.U24LeAsWrittenDropsLastByte | ende/src/decode.rs:649-660 | the code yields 0x100·b0 + 0x10000·b1, dropping b2; [1,2,3] gives 0x020100, not 0x030201 |
| Decode.U48LeAsWritten | ende/src/decode.rs:701-712 | the code's little-endian U48 value is below 2^48 |
| Decode.U48LeAsWrittenDropsLastBytes | ende/src/decode.rs:701-712 | the code yields 0x10000 times the little-endian value of the first 4 bytes |
| Decode.U48LeAsWrittenExample | ende/src/decode.rs:701-712 | [1..6] gives 0x040302010000, not the little-endian value |
| Decode.U24Le | ende/src/decode.rs:649-660 | corrected: the value whose 3 little-endian bytes are the input |
| Decode.U48Le | ende/src/decode.rs:701-712 | corrected: the value whose 6 little-endian bytes are the input |
| Checksum.U16OnesComplement.constructor | utils/src/checksum.rs:10-15 | sum 0 and no pending byte |
| Checksum.U16OnesComplement.Add | utils/src/checksum.rs:17-19 | sum becomes (sum + word) mod 2^16; the pending byte is unchanged |
| Checksum.U16OnesComplement.Checksum | utils/src/checksum.rs:21-23 | the checksum is the 16-bit NOT of the sum (c + sum == 0xFFFF) |
| Checksum.U16OnesComplement.Write | utils/src/checksum.rs:27-43 | returns the input length; the new state is the reference `Feed` of the old state and the input (pending byte paired as high byte, odd tail held) |
| Checksum.FeedAppend | utils/src/checksum.rs:27-43 | feeding a + b equals feeding a then b, so any split of the input gives the same state |
| Checksum.WriteSplitExample | utils/src/checksum.rs:27-43 | two writes and one write of the concatenation leave the writer in the same state |
| Checksum.FeedFromNew | utils/src/checksum.rs:27-43 | from no pending byte, the sum is the wrapped sum of big-endian words and an odd last byte stays pending |
| Checksum.OfBytes | utils/src/checksum.rs:21-23 | the checksum of a byte string is the complement of its feed sum |
| Checksum.ChecksumFieldCompletes | utils/src/checksum.rs:21-43 | writing the checksum into a zeroed word-aligned field makes the whole sum 0xFFFF and the new checksum 0 |
| Text.LastIndexOf | address/parse/src/lib.rs:38 | `rfind`: the found index holds the character and nothing after it does; None when the character does not occur |
| Text.Split | address/parse/src/lib.rs:61 | `split` yields at least one part |
| Text.SplitJoin | address/parse/src/lib.rs:60-96 | splitting a separator-joined list of separator-free parts gives the parts back |
| Text.ParseUnsigned | address/parse/src/lib.rs:41 | an accepted number is at most the type's maximum; the empty string is rejected |
| Text.FormatRoundTrip | address/src/ipv4.rs:454-458 | parsing the decimal or hex text of n gives n back |
| Text.FormatHex2RoundTrip | address/src/hw.rs:302-315 | parsing the two-digit hex text of a byte gives the byte back |
| Text.SplitDoubleColonAfter | address/parse/src/lib.rs:140-143 | splitting `a::b` on `::` yields a then the parts of b |
| Address.PrefixMask | address/src/ipv4.rs:499-505 | the mask of p leading ones is below 2^w |
| Address.ShiftComplementIsMask | address/src/ipv4.rs:499-505 | `!(!0 >> p)` (all ones when p ≥ w) is the mask of p leading ones |
| Address.PrefixMaskStep | address/src/ipv4.rs:499-505 | one more prefix bit adds the next high bit to the mask |
| Address.LeadingOnesOfMask | address/src/ipv4.rs:499-509 | `as_prefix_len(from_prefix_len(p)) == min(p, w)` |
| Address.LeadingOnesMeaning | address/src/ipv4.rs:507-509 | `leading_ones` n is the largest n whose mask lies below the value |
| Address.NextAddrWraps | address/src/ipv4.rs:511-513 | next is v + 1, and the all-ones address wraps to 0 |
| Address.PrevAddrWraps | address/src/ipv4.rs:515-517 | prev is v − 1, and 0 wraps to the all-ones address |
| Address.NextPrevInverse | address/src/ipv4.rs:511-517 | next and prev undo each other |
| Address.Mask | address/src/lib.rs:236-238 | the subnet mask is a w-bit value |
| Address.BaseAddrValue | address/src/lib.rs:231-233 | `base & mask` is the stored base with its host bits cleared |
| Address.MaskClearsHostBits | address/src/lib.rs:231-233 | ANDing with the mask clears exactly the host bits |
| Address.BaseAddrAligned | address/src/lib.rs:231-233 | the base address is a multiple of the subnet size |
| Address.HostMask | address/src/lib.rs:258-260 | `!mask` is 2^hostbits − 1 |
| Address.LastValue | address/src/lib.rs:258-260 | `last()` is the base address plus the subnet size minus one |
| Address.LastFromBaseAddr | address/src/ipv4.rs:144-146 | `base_addr() \| !mask()` (the broadcast test) equals `last()` |
| Address.FirstLast | address/src/lib.rs:250-260 | for a prefix shorter than the width, `first()` is the base address plus one and at most `last()` |
| Address.ContainsAddrIsRange | address/src/lib.rs:245-248 | corrected `contains`: a & mask == base_addr() iff base_addr() ≤ a ≤ last() |
| Address.ContainsWithHostBitsIsEmpty | address/src/lib.rs:245-248 | as written, a subnet whose stored base has host bits set contains no address |
| Address.ContainsCanonical | address/src/lib.rs:245-248 | for a base without host bits the written and corrected `contains` agree |
| Address.ContainsExample | address/src/lib.rs:245-248 | 1.1.1.1/16 does not contain 1.1.0.5 as written, while the corrected test does |
| Address.Walk | address/src/lib.rs:308-321 | the addresses an iterator yields from curr to last number their wrapped distance plus one |
| Address.WalkStep | address/src/lib.rs:308-321 | the walk stops after last and otherwise continues from next_addr |
| Address.WalkAscending | address/src/lib.rs:308-321 | from c to last ≥ c the walk is c, c+1, …, last |
| Address.SubnetWalk | address/src/lib.rs:262-268 | a subnet iterator yields base+1 … last, 2^hostbits − 1 addresses in ascending order |
| Address.AddressIter.OfSubnet | address/src/lib.rs:262-268 | `iter()` starts at `first()` and ends at `last()` |
| Address.AddressIter.constructor | address/src/lib.rs:287-302 | start bound: Unbounded gives 0, Included a, Excluded next(a); end bound: Unbounded gives all ones, Included a, Excluded prev(a) |
| Address.AddressIter.Next | address/src/lib.rs:308-321 | yields the head of the remaining walk and drops it; None forever once exhausted |
| Ipv4Addr.ValueRoundTrip | address/src/ipv4.rs:25-31 | `from_value(value(a)) == a` and `value(from_value(v)) == v` |
| Ipv4Addr.FromPrefixLenIsMask | address/src/ipv4.rs:499-505 | the mask bytes carry the value of p leading ones (all ones for p ≥ 32) |
| Ipv4Addr.PrefixLenRoundTrip | address/src/ipv4.rs:499-509 | `as_prefix_len(from_prefix_len(p)) == min(p, 32)` |
| Ipv4Addr.FromPrefixLenExamples | address/src/ipv4.rs:624-644 | prefix lengths 4, 12 and 36 give f0.0.0.0, ff.f0.0.0 and 255.255.255.255 |
| Ipv4Addr.MaskBytes | address/src/ipv4.rs:499-505 | the address whose value is the mask is `from_prefix_len(p)` |
| Ipv4Addr.NextPrevInverse | address/src/ipv4.rs:511-517 | next and prev undo each other modulo 2^32 |
| Ipv4Addr.NextAddrWrapsToZero | address/src/ipv4.rs:511-513 | 255.255.255.255 is followed by 0.0.0.0 |
| Ipv4Addr.NextAddrAscends | address/src/ipv4.rs:511-513 | below the broadcast address the next address is greater |
| Ipv4Addr.OrderIsLexicographic | address/src/ipv4.rs:241-287 | equality and order by big-endian value coincide with byte equality and lexicographic byte order |
| Ipv4Addr.IsBroadcastIsLast | address/src/ipv4.rs:144-146 | `is_broadcast(s)` iff the address is the subnet's last address |
| Ipv4Addr.DisplayExample | address/src/ipv4.rs:454-458 | 192.168.0.1 is displayed as "192.168.0.1" |
| Hw.PaddedRight | address/src/hw.rs:66-74 | the result has the new length, starts with the copied bytes and is padding after them |
| Hw.PadRight | address/src/hw.rs:66-74 | the copy loop yields `PaddedRight` |
| Hw.PaddedLeft | address/src/hw.rs:84-97 | the result has the new length, ends with the source's last bytes and is padding before them |
| Hw.PadLeft | address/src/hw.rs:84-97 | the backward copy loop yields `PaddedLeft` |
| Hw.PaddedRightValue | address/src/hw.rs:60-74 | zero padding on the right multiplies the big-endian value by 2^(8·added bytes) |
| Hw.PaddedLeftValue | address/src/hw.rs:78-97 | zero padding on the left keeps the big-endian value |
| Hw.PadRightTruncate | address/src/hw.rs:66-74 | padding right and then truncating back to the original length gives the address back |
| Hw.PadLeftTruncate | address/src/hw.rs:84-97 | padding left and then truncating back to the original length gives the address back |
| Hw.FromPrefixLen | address/src/hw.rs:356-372 | the loop yields `MaskBytes`: p/8 bytes of 0xff, one partial byte, zeros; all 0xff when p ≥ 8·LEN |
| Hw.MaskBytesValue | address/src/hw.rs:356-372 | the big-endian value of the mask bytes is the mask of p leading ones |
| Hw.MaskBytesFull | address/src/hw.rs:357-359 | p ≥ 8·LEN gives all 0xff |
| Hw.MaskBytesShape | address/src/hw.rs:362-371 | p < 8·LEN gives p/8 bytes 0xff, then `!(0xff >> p%8)`, then zeros |
| Hw.ByteMaskIsPrefixMask | address/src/hw.rs:369 | the partial byte `!(!0u8 >> p)` is the 8-bit mask of p ones, below 0xff |
| Hw.AsPrefixLen | address/src/hw.rs:374-386 | the loop counts 8 per 0xff byte plus the leading ones of the first other byte |
| Hw.PrefixLenRoundTrip | address/src/hw.rs:356-386 | `as_prefix_len(from_prefix_len(p)) == min(p, 8·LEN)` |
| Hw.NextAddr | address/src/hw.rs:387-399 | the carry loop yields `Succ` |
| Hw.PrevAddr | address/src/hw.rs:401-413 | the borrow loop yields `Pred` |
| Hw.SuccCarry | address/src/hw.rs:387-399 | incrementing turns a trailing run of 0xff into zeros and increments the byte before it |
| Hw.PredBorrow | address/src/hw.rs:401-413 | decrementing turns a trailing run of zeros into 0xff and decrements the byte before it |
| Hw.SuccValue | address/src/hw.rs:387-399 | `next_addr` is +1 on the big-endian value modulo 2^(8·LEN) |
| Hw.PredValue | address/src/hw.rs:401-413 | `prev_addr` is −1 on the big-endian value, wrapping from 0 to 2^(8·LEN)−1 |
| Hw.SuccWraps | address/src/hw.rs:387-399 | all 0xff wraps to all zeros |
| Hw.PredSucc | address/src/hw.rs:387-413 | prev(next(a)) == a |
| Hw.SuccPred | address/src/hw.rs:387-413 | next(prev(a)) == a |
| Hw.AndAssign | address/src/hw.rs:132-138 | `&=` replaces each byte by its AND with the other's |
| Hw.OrAssign | address/src/hw.rs:179-185 | `\|=` replaces each byte by its OR with the other's |
| Hw.XorAssign | address/src/hw.rs:226-232 | `^=` replaces each byte by its XOR with the other's |
| Hw.BitAnd | address/src/hw.rs:146-177 | `&` is the bytewise AND |
| Hw.BitOr | address/src/hw.rs:193-224 | as written, `\|` delegates to `&=` and so is the bytewise AND |
| Hw.BitXor | address/src/hw.rs:240-271 | as written, `^` delegates to `&=` and so is the bytewise AND |
| Hw.BitOrCorrected | address/src/hw.rs:193-224 | corrected `\|` is the bytewise OR |
| Hw.BitXorCorrected | address/src/hw.rs:240-271 | corrected `^` is the bytewise XOR |
| Hw.BitOrAsWrittenClears | address/src/hw.rs:193-200 | as written, a \| 0 is all zeros |
| Hw.BitOrAsWrittenExample | address/src/hw.rs:193-200 | as written, ff \| 00 gives 00 |
| Hw.BytesOrZero | address/src/hw.rs:179-185 | OR with zeros is the identity |
| Hw.BitXorAsWrittenSelf | address/src/hw.rs:240-247 | as written, a ^ a is a, not zero |
| Hw.BytesXorInvolution | address/src/hw.rs:226-232 | XOR with b twice gives a back, and a ^ a is zero |
| Hw.BitNot | address/src/hw.rs:273-290 | `!` complements every byte |
| Hw.BytesNotValue | address/src/hw.rs:273-282 | the complement's value is 2^(8·LEN) − 1 − the value |
| Hw.BytesNotInvolution | address/src/hw.rs:273-282 | complementing twice gives the address back |
| Hw.Display | address/src/hw.rs:302-315 | two lowercase hex digits per byte joined by ':' |
| Mac.FromEui | address/src/mac.rs:59-72 | `Err(input)` exactly when bytes 3 and 4 are not ff, fe |
| Mac.FromEuiToEui | address/src/mac.rs:59-95 | from_eui(to_eui(m)) == Ok(m) |
| Mac.ToEuiFromEui | address/src/mac.rs:59-95 | an accepted EUI-64 is rebuilt by to_eui |
| Mac.ToEuiExample | address/src/mac.rs:53-83 | 12:34:56:78:9a:bc maps to 10:34:56:ff:fe:78:9a:bc; 12:34:56:78:9a:bc:de:f0 is rejected |
| Mac.FlipTwice | address/src/mac.rs:64-86 | XOR of byte 0 with 0x02 undoes itself |
| Mac.ToU48Value | address/src/mac.rs:148-153 | the U48 of a MAC address is its big-endian value, below 2^48 |
| Mac.MacRoundTrip | address/src/mac.rs:140-153 | MacAddress → U48 → MacAddress is the identity |
| Mac.U48RoundTrip | address/src/mac.rs:140-153 | U48 → MacAddress → U48 is the identity (the two dropped high bytes are zero) |
| Ipv6Addr.ValueRoundTrip | address/src/ipv6.rs:27-33 | `from_value(value(a)) == a` and `value(from_value(v)) == v` |
| Ipv6Addr.FromPrefixLenIsMask | address/src/ipv6.rs:632-638 | the mask bytes carry the value of p leading ones (all ones for p ≥ 128) |
| Ipv6Addr.PrefixLenRoundTrip | address/src/ipv6.rs:632-642 | `as_prefix_len(from_prefix_len(p)) == min(p, 128)` |
| Ipv6Addr.NextPrevInverse | address/src/ipv6.rs:644-650 | next and prev undo each other modulo 2^128 |
| Ipv6Addr.FromIpv4Mapped | address/src/ipv6.rs:220-227 | from IPv4 gives value 0xffff·2^32 + v4, lies in ::ffff:0:0/96 and ends with the IPv4 bytes |
| Ipv6Addr.MappedValue | address/src/ipv6.rs:220-227 | the mapped address's value is 0xffff·2^32 + the IPv4 value |
| Ipv6Addr.MappedInSubnet | address/src/ipv6.rs:108 | every value in the ::ffff:0:0/96 range is in the mapped subnet |
| Ipv6Addr.Words | address/src/ipv6.rs:527-536 | eight 16-bit words, read big-endian |
| Ipv6Addr.FindZeroRun | address/src/ipv6.rs:538-558 | the scan loop and its final comparison yield `ZeroRun` |
| Ipv6Addr.ScanKeepsInvariant | address/src/ipv6.rs:542-554 | after n words the scan holds the first longest run so far and the current run of zeros |
| Ipv6Addr.ZeroRunIsFirstLongest | address/src/ipv6.rs:538-558 | the chosen run is all zeros, and no run is longer or equally long and earlier |
| Ipv6Addr.WriteSuffixed | address/src/ipv6.rs:577-579 | the loop writes each word followed by ':' |
| Ipv6Addr.WritePrefixed | address/src/ipv6.rs:571-573 | the loop writes each word preceded by ':' |
| Ipv6Addr.Display | address/src/ipv6.rs:525-591 | the formatter writes `DisplayText`: eight groups without a run, "::" for all zeros, otherwise the first longest run replaced by "::" |
| Ipv6Addr.DisplayUnspecified | address/src/ipv6.rs:706-709 | all zeros display as "::" |
| Ipv6Addr.DisplayOneFirst | address/src/ipv6.rs:710-713 | 1 followed by zeros displays as "1::" |
| Ipv6Addr.DisplayOneLast | address/src/ipv6.rs:714-717 | zeros followed by 1 display as "::1" |
| Ipv6Addr.DisplayMiddle | address/src/ipv6.rs:730-733 | 1:1:0:0:0:0:1:1 displays as "1:1::1:1" |
| Ipv6Addr.SingleZeroWords | address/src/ipv6.rs:527-558 | 1:0:1:1:1:1:1:1 has a single-word zero run at index 1 |
| Ipv6Addr.DisplayCompressesSingleZero | address/src/ipv6.rs:538-589 | as written a single zero word is compressed: "1::1:1:1:1:1:1" |
| Ipv6Addr.RfcZeroRunMeaning | address/src/ipv6.rs:538-560 | the variant that only compresses runs of two or more words picks none or the first longest run |
| Ipv6Addr.DisplayRfcKeepsSingleZero | address/src/ipv6.rs:560-565 | that variant prints "1:0:1:1:1:1:1:1" |
| AddrParse.FromAddressError | address/parse/src/lib.rs:21-28 | an address error converts to the same kind of subnet error, never `InvalidPrefixLen` |
| AddrParse.ParseSubnet | address/parse/src/lib.rs:30-50 | an accepted prefix length is at most the maximum |
| AddrParse.ParseSubnetNoSlash | address/parse/src/lib.rs:48 | without '/', the whole text is the address and the prefix is the maximum; address errors are converted |
| AddrParse.LastIndexOfAfter | address/parse/src/lib.rs:38 | `rfind('/')` finds the last slash, whatever the address part contains |
| AddrParse.ParseSubnetSlash | address/parse/src/lib.rs:38-47 | with a last '/', success iff the address parses and the prefix parses and is at most the maximum; otherwise the address error, or `InvalidPrefixLen` for a too large prefix |
| AddrParse.DecOctet | address/parse/src/lib.rs:75-78 | a part is accepted exactly when it is a decimal number up to 255 |
| AddrParse.OctetsMeaning | address/parse/src/lib.rs:75-94 | the four octets are read iff there are exactly four parts and each is a valid octet |
| AddrParse.ParseIpv4Exact | address/parse/src/lib.rs:72-96 | `parse_ipv4` succeeds iff the text has exactly four '.'-separated decimal octets, and yields them |
| AddrParse.ParseIpv4Display | address/src/ipv4.rs:446-458 | parsing the display text of an address gives the address back |
| AddrParse.ParseIpv4TooShort | address/src/ipv4.rs:551 | "1.2.3" is rejected with `InvalidLength` |
| AddrParse.ParseIpv4OctetOverflow | address/src/ipv4.rs:566 | "1.2.3.256" is rejected with a `ParseInt` overflow |
| AddrParse.ParseIpv4Subnet | address/parse/src/lib.rs:52-54 | an accepted IPv4 prefix length is at most 32 |
| AddrParse.ParseIpv4SubnetDisplay | address/src/lib.rs:271-278 | "a/p" parses to (a, p) for p ≤ 32 and is `InvalidPrefixLen` for larger u32 p |
| AddrParse.HexOctet | address/parse/src/lib.rs:63 | a part is accepted exactly when it is a hex number up to 0xff |
| AddrParse.Filled | address/parse/src/lib.rs:62-64 | the loop fills bytes until the parts run out or a part fails to parse |
| AddrParse.ParseHw | address/parse/src/lib.rs:60-70 | the result and the bytes written (including those written before a failure) are `HwStatus` and `HwWritten` of the ':'/'-' parts |
| AddrParse.HwStatusExact | address/parse/src/lib.rs:60-70 | success iff there are exactly as many parts as bytes and each is a hex octet; then byte j is part j |
| AddrParse.HwFromStr | address/src/hw.rs:292-300 | an accepted hardware address has the declared length |
| AddrParse.HwParseDisplay | address/src/hw.rs:292-315 | parsing the display text of a non-empty hardware address gives it back |
| AddrParse.HwParseDash | address/parse/src/lib.rs:61 | '-' separates parts like ':' |
| AddrParse.HwParseTooShort | address/parse/src/lib.rs:63 | too few parts give `InvalidLength` |
| AddrParse.HwParseBadDigit | address/parse/src/lib.rs:63 | a non-hex part gives a `ParseInt` error |
| Ipv6Parse.HexWord | address/parse/src/lib.rs:113 | an accepted hex word is below 2^16 |
| Ipv6Parse.SetWord | address/parse/src/lib.rs:115-119 | the word is stored big-endian at hi, hi+1 and no other byte changes |
| Ipv6Parse.Ipv4Tail | address/parse/src/lib.rs:126-131 | a dotted tail is accepted iff `parse_ipv4` accepts it; it overwrites bytes 12-15 only |
| Ipv6Parse.ForwardAsWritten | address/parse/src/lib.rs:107-138 | the words before "::" leave an even index of at most 16 |
| Ipv6Parse.ForwardLoop | address/parse/src/lib.rs:107-138 | the first loop over a 16-byte buffer computes `ForwardAsWritten` and leaves its bytes in the buffer |
| Ipv6Parse.BackwardLoop | address/parse/src/lib.rs:140-179 | the reverse loop over the words after "::" computes `BackwardAsWritten`, including its underflow |
| Ipv6Parse.ParseIpv6Method | address/parse/src/lib.rs:98-185 | the whole parser over a mutable buffer yields `ParseIpv6AsWritten` |
| Ipv6Parse.WroteWord | address/parse/src/lib.rs:115-119 | writing the two bytes of a word and nothing else is `SetWord` |
| Ipv6Parse.Forward | address/parse/src/lib.rs:107-138 | corrected first loop: even index of at most 16, and it stops only with a final result |
| Ipv6Parse.ForwardAllHex | address/parse/src/lib.rs:107-120 | hex words are stored in order from the index on, or `InvalidLength` once they pass byte 16 (as written and corrected) |
| Ipv6Parse.BackwardAllHex | address/parse/src/lib.rs:145-161 | hex words after "::" are stored so that the last ends at byte 15; as written this needs two bytes of room to spare |
| Ipv6Parse.ForwardWithMore | address/parse/src/lib.rs:122-125 | a dotted tail before a further "::" part is an error |
| Ipv6Parse.SecondDoubleColonRejected | address/parse/src/lib.rs:140-143 | a second "::" is always an error |
| Ipv6Parse.WithoutDoubleColon | address/parse/src/lib.rs:180-182 | without "::", hex words parse iff there are exactly eight of them |
| Ipv6Parse.WithoutDoubleColonCorrected | address/parse/src/lib.rs:180-182 | the same for the corrected parser |
| Ipv6Parse.Ipv4TailOnlyAtTwelve | address/parse/src/lib.rs:121-134 | a non-hex word before "::" anywhere but byte 12 is the hex parse error |
| Ipv6Parse.Ipv4TailOnlyLast | address/parse/src/lib.rs:162-175 | a non-hex word after "::" other than the last is the hex parse error |
| Ipv6Parse.FirstPart | address/parse/src/lib.rs:107-120 | the hex text of up to eight words fills the front of the address |
| Ipv6Parse.SecondPart | address/parse/src/lib.rs:148-161 | the hex text of up to seven words after "::" fills the back of the address |
| Ipv6Parse.ParseAroundRun | address/parse/src/lib.rs:98-185 | words, "::", words (at most seven in all) parse to those words at the front and the back |
| Ipv6Parse.DisplayWithoutRun | address/src/ipv6.rs:560-565 | the eight-group display text parses back to the address |
| Ipv6Parse.DisplayWithRun | address/src/ipv6.rs:566-589 | display text with "::" parses back to the address |
| Ipv6Parse.ParseIpv6Display | address/src/ipv6.rs:517-591 | `parse_ipv6(display(a)) == a`, as written and corrected |
| Ipv6Parse.ParseIpv6Subnet | address/parse/src/lib.rs:56-58 | an accepted IPv6 prefix length is at most 128 |
| Ipv6Parse.ParseIpv6SubnetDisplay | address/src/lib.rs:271-278 | "display(a)/p" parses to (a, p) for p ≤ 128 and is `InvalidPrefixLen` for larger u32 p |
| Ipv6Parse.DottedText | address/src/ipv4.rs:454-458 | dotted IPv4 text is not a hex word, has no ':' and is not empty |
| Ipv6Parse.MappedAsWritten | address/parse/src/lib.rs:162-172 | as written, "::ffff:a.b.c.d" parses with the ffff word lost, which is not the mapped address |
| Ipv6Parse.MappedCorrected | address/parse/src/lib.rs:162-172 | corrected, "::ffff:a.b.c.d" parses to the IPv4-mapped address |
| Ipv6Parse.BackwardUnderflow | address/parse/src/lib.rs:149-160 | as written, filling byte 0 from the back decrements the index below zero (a panic in checked builds) |
| Ipv6Parse.UnderflowExample | address/parse/src/lib.rs:145-160 | as written, "::1:2:3:4:5:6:7:8" underflows |
| Ipv6Parse.EightAfterDoubleColon | address/parse/src/lib.rs:145-160 | as written, any eight hex words after a leading "::" underflow |
| Ipv6Parse.EightAfterDoubleColonCorrected | address/parse/src/lib.rs:145-160 | corrected, they parse to those eight words, which the bound check at line 150 admits |
| Ipv6Parse.TrailingAfterIpv4 | address/parse/src/lib.rs:108-131 | six words, a dotted address and one more word: accepted as written, `InvalidLength` corrected |
| Ipv6Parse.TrailingAsWritten | address/parse/src/lib.rs:108-131 | as written, the word after the dotted address is ignored |
| Ipv6Parse.TrailingCorrected | address/parse/src/lib.rs:108-131 | corrected, a word after the dotted address is `InvalidLength` |
| Ipv4Codes.ClassFromBits | protos/src/ipv4.rs:193-212 | the class read from two bits converts back to them; it is `Reserved` exactly for 1 and 3 |
| Ipv4Codes.ClassRoundTrip | protos/src/ipv4.rs:193-212 | a class in canonical form survives the trip through its bits |
| Ipv4Codes.FromOctet | protos/src/ipv4.rs:282-347 | `OptionType::from(b).octet() == b` for every octet |
| Ipv4Codes.TypeRoundTrip | protos/src/ipv4.rs:282-347 | an option type in canonical form survives the trip through its octet |
| Ipv4Codes.FieldsOctet | protos/src/ipv4.rs:215-220 | `copied \| class << 5 \| number` has the copied flag in bit 7, the class in bits 5-6 and the number in bits 0-4 |
| Ipv4Codes.OctetFields | protos/src/ipv4.rs:222-280 | every type's octet is assembled from its `copied`, `class` and `number` |
| Ipv4Codes.FieldsOfOctet | protos/src/ipv4.rs:222-347 | the fields of the type read from an octet are its bits |
| Ipv4Codes.NewFields | protos/src/ipv4.rs:215-280 | `new(copied, class, number)` reports those fields back |
| Ipv4Codes.NewOfFields | protos/src/ipv4.rs:215-280 | a canonical type is rebuilt by `new` from its own fields |
| Ipv4Codes.ClassificationFromOctet | protos/src/ipv4.rs:355-387 | `u8::from(Classification::from(b)) == b` for every octet |
| Ipv4Codes.ClassificationRoundTrip | protos/src/ipv4.rs:355-387 | a canonical classification survives the trip through its octet |
| Ipv4Codes.FlagFromBits | protos/src/ipv4.rs:389-410 | the flag read from four bits converts back to them; it is `Unknown` except for 0, 1 and 3 |
| Ipv4Codes.FlagRoundTrip | protos/src/ipv4.rs:389-410 | a canonical flag survives the trip through its bits |
| Ipv4Opts.OptionTypeOf | protos/src/ipv4.rs:880-910 | only EOOL has the EOOL type among the structured options |
| Ipv4Opts.Routes | protos/src/ipv4.rs:422-428 | route addresses take four octets each |
| Ipv4Opts.Entries | protos/src/ipv4.rs:430-452 | timestamp entries take four octets each |
| Ipv4Opts.DataLen | protos/src/ipv4.rs:912-943 | the counted data length is absent exactly for EOOL, NOP and raw options |
| Ipv4Opts.Length | protos/src/ipv4.rs:912-945 | `length` is the raw option's own length, None for EOOL/NOP, and otherwise `actual_length` saturated at 255 |
| Ipv4Opts.ActualLength | protos/src/ipv4.rs:947-985 | at least 1, and 1 for EOOL and NOP |
| Ipv4Opts.Serialize | protos/src/ipv4.rs:843-858 | the type octet comes first, then the length octet when there is one |
| Ipv4Opts.ActualLengthIsWireLength | protos/src/ipv4.rs:947-985 | `actual_length` is the number of octets `serialize` writes, apart from the two miscounts below |
| Ipv4Opts.DataLenIsDataSize | protos/src/ipv4.rs:782-842 | the counted data length is the size of `serialize_data`, apart from route records |
| Ipv4Opts.LengthOctetIsSize | protos/src/ipv4.rs:912-945 | the length octet is the option size when that fits in an octet, else 255 |
| Ipv4Opts.RouteRecordUndercounts | protos/src/ipv4.rs:922-924 | as written, RR and SSRR count 3 + n octets for n addresses (LSRR counts 4n) while `serialize` writes 3 + 4n |
| Ipv4Opts.RawWithoutLengthOvercounts | protos/src/ipv4.rs:975-981 | as written, a raw option with data and no length octet counts one octet more than it writes |
| Ipv4Hdr.OptsLengthAppend | protos/src/ipv4.rs:1161-1167 | the options length of a list grows by each option's `actual_length` |
| Ipv4Hdr.Ipv4.OptsLen | protos/src/ipv4.rs:1161-1167 | the loop sums `actual_length` over the options |
| Ipv4Hdr.AutoPaddingLen | protos/src/ipv4.rs:1169-1177 | 20 + opts_len + padding == max(4·ihl, 20 + opts_len) |
| Ipv4Hdr.PaddingOf | protos/src/ipv4.rs:1179-1184 | manual padding is returned as stored; automatic padding is that many zeros, and slicing the 3-byte zero array panics (None) beyond 3 |
| Ipv4Hdr.Ipv4.PaddingMut | protos/src/ipv4.rs:1186-1196 | switches to manual padding holding the bytes `padding()` returned (zeros of the automatic length) |
| Ipv4Hdr.FixedBytes | protos/src/ipv4.rs:1356-1370 | the fixed part of the header is 20 octets |
| Ipv4Hdr.HeaderBytes | protos/src/ipv4.rs:1352-1376 | the header serialises exactly when its padding can be produced |
| Ipv4Hdr.HeaderBytesParts | protos/src/ipv4.rs:1352-1376 | the fixed 20 octets, then each option's `serialize`, then the padding |
| Ipv4Hdr.HeaderBytesAround | protos/src/ipv4.rs:1356-1374 | the checksum sits big-endian at octets 10-11, after the version/ihl, dscp/ecn, total length, ident, flags/offset, ttl and protocol octets, before the addresses |
| Ipv4Hdr.OptionsBytesLength | protos/src/ipv4.rs:1161-1167 | for options whose `actual_length` is exact, the serialised options take opts_len octets |
| Ipv4Hdr.HeaderBytesLength | protos/src/ipv4.rs:1348-1350 | `header_len` = 20 + opts_len + padding length is the serialised header length |
| Ipv4Hdr.HeaderChecksum | protos/src/ipv4.rs:1129-1135 | the checksum is defined exactly when the header serialises |
| Ipv4Hdr.ChecksumVerifies | protos/src/ipv4.rs:1129-1135 | with the computed checksum stored, the header's ones'-complement checksum is 0 |
| Ipv4Hdr.Ipv4.UpdateChecksum | protos/src/ipv4.rs:1129-1135 | stores and returns the checksum of the header serialised with a zero checksum field, after which the header checks to 0 |
| Ipv4Hdr.Ipv4.constructor | protos/src/ipv4.rs:994-1013 | all fields zero, protocol RESERVED, unspecified addresses, no options, automatic padding |
| Ipv4Hdr.Ipv4.WithAddresses | protos/src/ipv4.rs:1015-1034 | as `new`, with the given source and destination |
| Ipv4Hdr.CanonicalIhl | protos/src/ipv4.rs:1686-1689 | corrected ihl: the smallest 4-octet multiple that holds 20 + opts_len, or 15 when that exceeds 60 |
| Ipv4Hdr.Canonical | protos/src/ipv4.rs:1681-1696 | corrected `make_canonical`: version 4, automatic padding, the ihl above, total length saturated at 0xFFFF and a valid checksum; no other field changes |
| Ipv4Hdr.CanonicalLengths | protos/src/ipv4.rs:1681-1696 | after it 4·ihl is the header length (up to 40 option octets), and at most 3 padding octets are added |
| Ipv4Hdr.CanonicalChecksum | protos/src/ipv4.rs:1694-1695 | a canonical header checks to 0 |
| Ipv4Hdr.CanonicalIdempotent | protos/src/ipv4.rs:1681-1696 | making a canonical header canonical again changes nothing |
| Ipv4Hdr.Ipv4.MakeCanonical | protos/src/ipv4.rs:1681-1696 | the header becomes `Canonical` of the old header |
| Ipv4Hdr.MakeCanonicalAsWritten | protos/src/ipv4.rs:1681-1696 | as written, the header length comes from the stale ihl: it panics (None) iff 4·ihl > 23 + opts_len, and otherwise sets ihl to that length / 4 |
| Ipv4Hdr.MakeCanonicalAsWrittenPanics | protos/src/ipv4.rs:1179-1184 | as written, ihl 6 without options panics, while the corrected header is 20 octets with ihl 5 |
| Ipv4Hdr.MakeCanonicalAsWrittenMisreports | protos/src/ipv4.rs:1684-1689 | as written, options whose length is not a multiple of 4 leave 4·ihl below the header length |
| Ipv4Hdr.MakeCanonicalAsWrittenNopExample | protos/src/ipv4.rs:1681-1696 | one NOP option: as written ihl 5 with a 21-octet header; corrected 24 octets |
| Ipv4Dissect.WalkOptions | protos/src/ipv4.rs:1240-1257 | the option loop fails only as malformed, never grows its input, stops after an end-of-options-list, and only its last option can be end-of-options-list |
| Ipv4Dissect.WalkReadsBack | protos/src/ipv4.rs:1240-1257 | serialised options closed by end-of-options-list, followed by padding, are read back as those options, leaving the padding |
| Ipv4Dissect.WalkWritesBack | protos/src/ipv4.rs:1240-1257 | re-serialising the options read, followed by what the loop leaves, gives its input back |
| Ipv4Dissect.DissectOptions | protos/src/ipv4.rs:1227-1270 | ihl below 5 is malformed; a short buffer is incomplete by the missing octets; otherwise the 4·ihl − 20 option octets are consumed, the rest kept, a left-over of 4 or more octets becomes manual padding, and ihl 5 gives no options with automatic padding |
| Ipv4Dissect.DissectedEoolIsLast | protos/src/ipv4.rs:1245-1250 | only the last dissected option can be end-of-options-list |
| Ipv4Dissect.FixedFields | protos/src/ipv4.rs:1207-1224 | the fixed fields are read from their octets: ttl octet 8, protocol octet 9, source 12-15, destination 16-19 |
| Ipv4Dissect.FixedFieldsOfBytes | protos/src/ipv4.rs:1207-1224 | reading the fixed fields of a serialised fixed header gives that header back |
| Ipv4Dissect.FixedBytesOfFields | protos/src/ipv4.rs:1352-1370 | serialising the fixed fields read from 20 octets gives those octets back |
| Ipv4Dissect.DissectHeader | protos/src/ipv4.rs:1200-1293 | fewer than 20 octets is incomplete by the missing count; a parsed header has ihl ≥ 5 and consumes exactly 4·ihl octets |
| Ipv4Dissect.HeaderRoundTrip | protos/src/ipv4.rs:1200-1293 | a header whose ihl matches its length and whose options read back and end with end-of-options-list is serialised and dissected back to itself, leaving what follows |
| Ipv4Dissect.HeaderWritesBack | protos/src/ipv4.rs:1200-1293 | a dissected header with zero padding serialises back to the 4·ihl octets it was read from |
| Ipv4Dissect.SplitPayloadAsWritten | protos/src/ipv4.rs:1299-1304 | as written, the payload split panics (None) exactly when the total length is below the header length |
| Ipv4Dissect.SplitPayloadAsWrittenExample | protos/src/ipv4.rs:1302 | as written, a zero total length after a 20-octet header panics |
| Ipv4Dissect.SplitPayload | protos/src/ipv4.rs:1299-1304 | corrected split: an error exactly when the total length is below the header length; otherwise payload and remainder concatenate to the input, the payload being min(available, totlen − header length) octets |
| Ipv4Dissect.SplitPayloadAgrees | protos/src/ipv4.rs:1299-1304 | wherever the code as written does not panic, the corrected split gives the same result |
| Ipv4Dissect.DissectPacket | protos/src/ipv4.rs:1200-1323 | a parsed packet is the dissected header, its payload and the remainder, which concatenate to the input; when something remains, header plus payload is exactly the total length |
| EthernetII.AutoTrailerLen | protos/src/ethernet_ii.rs:77-84 | the automatic trailer pads the inner length up to the 46-octet minimum payload, and never exceeds 46 |
| EthernetII.TrailerOf | protos/src/ethernet_ii.rs:86-92 | automatic: that many zeros; `Zeros(len)`: len zeros, panicking (None) when len exceeds the 46-octet zero array; manual: the stored octets |
| EthernetII.PaddingPrefix | protos/src/ethernet_ii.rs:108 | every slice of the zero array is a run of zeros |
| EthernetII.TotalLenCountsTrailer | protos/src/ethernet_ii.rs:184-199 | `total_len` is 14 + inner length + trailer length, and with an automatic trailer it is at least 60 |
| EthernetII.HeaderBytes | protos/src/ethernet_ii.rs:201-210 | the header is 14 octets |
| EthernetII.HeaderFields | protos/src/ethernet_ii.rs:116-117 | the two addresses and the ethertype are read exactly when 14 octets are available |
| EthernetII.HeaderRoundTrip | protos/src/ethernet_ii.rs:116-117 | reading a serialised header gives back destination, source and ethertype, whatever follows |
| EthernetII.SerializeAsWritten | protos/src/ethernet_ii.rs:220-240 | as written, with an automatic trailer `serialize` panics (None) exactly when the payload exceeds 46 octets; otherwise it starts with the header and holds the payload |
| EthernetII.Serialize | protos/src/ethernet_ii.rs:220-240 | corrected: header, payload, then the trailer `trailer()` gives, defined exactly when that trailer is |
| EthernetII.SerializeLongPayload | protos/src/ethernet_ii.rs:229-231 | a 47-octet payload with an automatic trailer panics as written, while the corrected frame is 61 octets, its `total_len` |
| EthernetII.SerializeLength | protos/src/ethernet_ii.rs:184-240 | the serialised frame is `total_len` octets long, and where the code as written does not panic it agrees with the corrected serialisation |
| EthernetII.CanonicalEthertype | protos/src/ethernet_ii.rs:264-269 | the inner PDU's ethertype when it has one, otherwise the current ethertype |
| EthernetII.CanonicalProperties | protos/src/ethernet_ii.rs:264-271 | a canonical frame has an automatic trailer and is at least 60 octets, keeps its addresses and inner PDU, and is left unchanged by a second `make_canonical` |
| EthernetII.EthernetII.constructor | protos/src/ethernet_ii.rs:33-41 | zero addresses, ethertype 0, automatic trailer, no inner PDU |
| EthernetII.EthernetII.WithAddresses | protos/src/ethernet_ii.rs:43-51 | the given addresses, ethertype 0, automatic trailer, no inner PDU |
| EthernetII.EthernetII.TrailerMut | protos/src/ethernet_ii.rs:94-105 | the trailer becomes manual with the octets it stood for, so the trailer `trailer()` gives and `total_len` are unchanged |
| EthernetII.EthernetII.MakeCanonical | protos/src/ethernet_ii.rs:264-271 | the frame becomes its canonical form |
| Dissection.Insert | core/src/dissection.rs:278-279 | `Vec::insert`: one longer, the new element at its index, elements before kept, elements after shifted by one |
| Dissection.InsertKeepsOrder | core/src/dissection.rs:274-278 | inserting a priority at a slot the search found keeps the priorities in non-increasing order and adds exactly that priority |
| Dissection.SearchPos | core/src/dissection.rs:274-277 | the descending binary search returns a slot: priorities before it are at least the new one, priorities after it at most |
| Dissection.InsertSorted | core/src/dissection.rs:267-279 | loading keeps priorities sorted and paired with dissectors, inserts both at the same slot, and adds exactly the new priority |
| Dissection.LoadedBetween | core/src/dissection.rs:274-279 | when the new priority differs from all loaded ones, the slot is forced: after every higher priority and before every lower one |
| Dissection.InsertIntoEmpty | core/src/dissection.rs:278-279 | inserting into an empty list gives the one-element list |
| Dissection.LoadOrderExample | core/src/dissection.rs:267-284 | loading priorities 0, 10 and 5 yields the dissectors in order 10, 5, 0 |
| Dissection.Table.constructor | core/src/dissection.rs:253-255 | an empty table |
| Dissection.Table.Load | core/src/dissection.rs:267-279 | the entry becomes the old one with the dissector inserted at its priority's slot |
| Dissection.Table.Find | core/src/dissection.rs:282-284 | always finds, returning the dissectors in priority order |
| Dissection.KeyedTable.constructor | core/src/dissection.rs:289-291 | an empty map |
| Dissection.KeyedTable.Load | core/src/dissection.rs:303-319 | the key gains an entry (empty when new) with the dissector inserted at its slot; other keys unchanged |
| Dissection.KeyedTable.Find | core/src/dissection.rs:322-327 | none exactly when the key was never loaded, otherwise its dissectors in priority order |
| Dissection.FirstDecisive | core/src/dissection.rs:112-126 | the index of the first dissector that parses or fails hard, every earlier one having only erred; none when no dissector is decisive |
| Dissection.FirstSuccessIsFirstDecisive | core/src/dissection.rs:112-126 | the table parser returns the first decisive dissector's result, and malformed when there is none |
| Dissection.Parse | core/src/dissection.rs:112-126 | the loop returns the first decisive result of the dissectors found (none found: no dissectors), malformed otherwise |
| Dissection.DissectOrRaw | core/src/dissection.rs:90-100 | never an error nor incomplete: the table's result when decisive, otherwise the whole buffer as a raw PDU |
| PcapngTime.Pow10Fits | capfile/src/pcapng/sniffer.rs:28-31 | 10^r fits in 64 bits exactly when r ≤ 19 |
| PcapngTime.UnitsPerSec | capfile/src/pcapng/sniffer.rs:26-41 | the resolution octet names a positive number of units per second: 10^r with the high bit clear, 2^r with it set |
| PcapngTime.ApplyOffset | capfile/src/pcapng/sniffer.rs:42-55 | the offset is added with saturation into 0..u64::MAX, except that `i64::MIN` yields 0; a negative offset never increases the seconds and a positive one never decreases them |
| PcapngTime.Seconds | capfile/src/pcapng/sniffer.rs:32 | the whole seconds are the floor of ts / units |
| PcapngTime.Nanos | capfile/src/pcapng/sniffer.rs:33 | the nanoseconds are the floor of fraction · 10^9 / units, below 10^9 |
| PcapngTime.Timestamp | capfile/src/pcapng/sniffer.rs:25-57 | corrected timestamp: seconds and nanoseconds below 10^9 |
| PcapngTime.TimestampIsTruncatedNanos | capfile/src/pcapng/sniffer.rs:25-41 | without offset, the timestamp is ts · 10^9 / units nanoseconds, truncated |
| PcapngTime.TsCalcAsWritten | capfile/src/pcapng/sniffer.rs:25-57 | as written, `ts_calc` panics (None) exactly when the units per second or the fraction times 10^9 overflow 64 bits, and otherwise agrees with the corrected timestamp |
| PcapngTime.UsualResolutionsFit | capfile/src/pcapng/sniffer.rs:25-57 | with at most 10 decimal digits or at most 34 binary digits of resolution the code as written never panics |
| PcapngTime.MicrosecondsExample | capfile/src/pcapng/sniffer.rs:25-57 | 1 500 000 µs is 1 s 500 000 000 ns, and an offset of −2 s saturates the seconds at 0 |
| PcapngTime.DecimalOverflowExample | capfile/src/pcapng/sniffer.rs:33 | at resolution 10^-11 the fraction times 10^9 overflows, although the timestamp is 0 s 999 999 999 ns |
| PcapngTime.ResolutionBits | capfile/src/pcapng/sniffer.rs:26 | masking with 0x80 tests the high bit and masking with 0x7F clears it |
| PcapngTime.BinaryFraction | capfile/src/pcapng/sniffer.rs:37-40 | `ts & !(u64::MAX << r)` is ts mod 2^r and `1 << r` is 2^r |
| PcapngTime.BinaryCase | capfile/src/pcapng/sniffer.rs:34-41 | with the high bit set and fewer than 64 binary digits, the result is the seconds and nanoseconds of units 2^r, failing only when the fraction times 10^9 overflows |
| PcapngTime.BinaryTooFine | capfile/src/pcapng/sniffer.rs:36-38 | with 64 or more binary digits the shift overflows and the code panics |
| PcapngTime.Magnitude | capfile/src/pcapng/sniffer.rs:27-30 | the loop yields 10^r, and panics (None) exactly when that overflows 64 bits |
| PcapngTime.TsCalc | capfile/src/pcapng/sniffer.rs:25-57 | the imperative `ts_calc` returns what the as-written function says |
| PcapngTime.TsCalcDecimal | capfile/src/pcapng/sniffer.rs:26-32 | the decimal branch (top bit of `tsresol` clear), with `mag` built by the loop, returns what the as-written function says, offset applied |
| PcapngTime.TsCalcBinary | capfile/src/pcapng/sniffer.rs:33-41 | the binary branch (top bit set), with the shift and the mask, returns what the as-written function says, offset applied |
| HexLiteral.HexDigit | bytes/src/lib.rs:66-68 | a hexadecimal digit's value is below 16 |
| HexLiteral.Pairs | bytes/src/lib.rs:70-76 | an even number of digits packs into half as many octets |
| HexLiteral.ScanAppend | bytes/src/lib.rs:49-77 | scanning a concatenation is scanning its second part from the state the first part leaves |
| HexLiteral.ScanDigits | bytes/src/lib.rs:49-77 | the scan only ever collects hexadecimal digits |
| HexLiteral.PairsConcat | bytes/src/lib.rs:70-76 | packing two even digit runs is packing each and concatenating |
| HexLiteral.FirstDigit | bytes/src/lib.rs:70-72 | after an even number of digits, a digit becomes the high nibble and the parity flips |
| HexLiteral.SecondDigit | bytes/src/lib.rs:73-75 | after an odd number of digits, a digit completes the octet high·16 + low, which fits in 8 bits |
| HexLiteral.Bytes | bytes/src/lib.rs:44-84 | the loop over the characters yields what the scan specification gives: the octets, or the panic for a bad digit or an odd digit count |
| HexLiteral.Nibbles | bytes/src/lib.rs:70-76 | each octet splits into two hexadecimal digits |
| HexLiteral.HexCharDigit | bytes/src/lib.rs:57-68 | a formatted digit reads back as itself and is neither whitespace, a separator nor a comment mark |
| HexLiteral.ScanFormat | bytes/src/lib.rs:49-77 | scanning formatted octets collects exactly their nibbles |
| HexLiteral.PairsNibbles | bytes/src/lib.rs:70-76 | packing the nibbles of octets gives those octets |
| HexLiteral.ScanComment | bytes/src/lib.rs:50-55 | a comment runs to the end of the line and collects nothing |
| HexLiteral.FormatRoundTrip | bytes/src/lib.rs:44-84 | octets written as hexadecimal pairs separated by spaces are parsed back to themselves |
| HexLiteral.CommentIgnored | bytes/src/lib.rs:61-64 | a `#` comment between two formatted runs leaves the octets of both runs, concatenated |
| HexLiteral.BadLiteralsRejected | bytes/src/lib.rs:66-81 | three digits panic as an odd digit count, and a `g` panics as a non-hexadecimal digit |
| IntervalSet.CoveredConcat | src/utils/interval_set.rs:47-49 | a value is in the union of two runs of ranges iff it is in one of them |
| IntervalSet.WellFormedConcat | src/utils/interval_set.rs:4 | two sorted, disjoint, non-adjacent runs joined where the first ends before a gap stay so |
| IntervalSet.SearchAsWritten | src/utils/interval_set.rs:22-25 | as written, `find_pos` of an empty set is `Above(0)` |
| IntervalSet.SearchSound | src/utils/interval_set.rs:22-45 | as written, every position `find_pos` reports is true of the range it names (or the empty set) |
| IntervalSet.SearchMissesFirst | src/utils/interval_set.rs:26-39 | as written, in four ranges whose first holds 0, the search for 0 stops at index 1 and reports `Below(1)` |
| IntervalSet.SearchOutOfBounds | src/utils/interval_set.rs:26-34 | as written, searching 5 in two ranges steps the index past the end and panics (None) |
| IntervalSet.LocateContains | src/utils/interval_set.rs:22-45 | corrected search: it reports `Contains(i)` exactly when range i holds the value |
| IntervalSet.LocateCovered | src/utils/interval_set.rs:47-49 | corrected search: `Contains` exactly when the set holds the value |
| IntervalSet.AffectedAsWritten | src/utils/interval_set.rs:67-166 | as written, `affected` on an empty set is the gap at index 0 |
| IntervalSet.BeforeMeaning | src/utils/interval_set.rs:67-166 | the ranges before the first affected one end strictly before the interval starts; the rest end at or after it |
| IntervalSet.UpToMeaning | src/utils/interval_set.rs:67-166 | the ranges up to the last affected one start at or before the interval ends; the rest start after it |
| IntervalSet.AffectedMeaning | src/utils/interval_set.rs:67-166 | corrected `affected`: `Ranges(s, e)` exactly the ranges the interval overlaps or touches, else `None(s)` the gap where it fits between them |
| IntervalSet.AffectedOverreaches | src/utils/interval_set.rs:73-76 | as written, [5, 7) in [0,2) [4,6) [8,10) also takes in [8,10), which it does not touch |
| IntervalSet.AffectedMisplacesAbove | src/utils/interval_set.rs:155-157 | as written, [5, 6) after [0, 1) is placed in the gap before it instead of after |
| IntervalSet.InsertIntoEmpty | src/utils/interval_set.rs:191-196 | inserting into an empty set gives the one interval |
| IntervalSet.InsertMeaning | src/utils/interval_set.rs:168-199 | inserting keeps the ranges sorted, disjoint and non-adjacent, and adds exactly the interval's values |
| IntervalSet.RemoveMeaning | src/utils/interval_set.rs:201-263 | removing keeps the ranges sorted, disjoint and non-adjacent, and takes away exactly the interval's values |
| IntervalSet.RemoveSplits | src/utils/interval_set.rs:204-212 | removing from the inside of one range splits it in two around the interval |
| IntervalSet.CollapseAsWrittenLoses | src/utils/interval_set.rs:255-260 | as written, the swap-and-truncate loop removes the slice lo..hi only when no more ranges follow it than it holds |
| IntervalSet.RemoveSpanErases | src/utils/interval_set.rs:237-261 | as written, removing [2, 8) from three ranges that it overlaps all of leaves nothing, where [0, 2) and [8, 10) should remain |
| IntervalSet.LeastStored | src/utils/interval_set.rs:55-57 | the first range's start is the least value held |
| IntervalSet.GreatestStored | src/utils/interval_set.rs:59-61 | the last range's end is just above the greatest value held |
| IntervalSet.IntervalSet.constructor | src/utils/interval_set.rs:18-20 | an empty set |
| IntervalSet.IntervalSet.IsEmpty | src/utils/interval_set.rs:51-53 | true exactly when no value is held |
| IntervalSet.IntervalSet.MinInclusive | src/utils/interval_set.rs:55-57 | none for the empty set, otherwise the least value held |
| IntervalSet.IntervalSet.MaxExclusive | src/utils/interval_set.rs:59-61 | none for the empty set, otherwise one above the greatest value held |
| IntervalSet.IntervalSet.Clear | src/utils/interval_set.rs:63-65 | the set becomes empty |
| IntervalSet.IntervalSet.FindPosAsWritten | src/utils/interval_set.rs:22-45 | the loop as written, step for step |
| IntervalSet.IntervalSet.FindPos | src/utils/interval_set.rs:22-45 | corrected binary search: the position of the value among the ranges |
| IntervalSet.IntervalSet.Contains | src/utils/interval_set.rs:47-49 | true exactly when the set holds the value |
| IntervalSet.IntervalSet.AffectedRanges | src/utils/interval_set.rs:67-166 | corrected `affected`, computed from the positions of the interval's two ends |
| IntervalSet.IntervalSet.Collapse | src/utils/interval_set.rs:180-189 | corrected shifting loop: removes exactly the slice lo..hi |
| IntervalSet.IntervalSet.CollapseAsWritten | src/utils/interval_set.rs:183-188 | the loop as written |
| IntervalSet.IntervalSet.Insert | src/utils/interval_set.rs:168-199 | the set stays well-formed and afterwards holds exactly the old values and the interval's |
| IntervalSet.IntervalSet.Remove | src/utils/interval_set.rs:201-263 | the set stays well-formed and afterwards holds exactly the old values outside the interval |
| IntervalSet.IntervalSet.RemoveWithin | src/utils/interval_set.rs:204-220 | the one affected range is replaced by what remains of it |
| IntervalSet.IntervalSet.RemoveAcross | src/utils/interval_set.rs:221-236 | the two affected ranges are replaced by what remains of them |
| IntervalSet.IntervalSet.RemoveSpanning | src/utils/interval_set.rs:237-261 | corrected general case: the affected ranges are replaced by what remains of the first and the last |

## Left out

- Hw.PadLeft: requires both lengths to be at least 1; with a zero length the code computes `LEN - 1` or `NEW_LEN - 1` and panics, which is not modelled.
- Hw.NextAddr: requires a non-empty address; for `LEN` 0 the code panics on `LEN - 1`, which is not modelled.
- Hw.PrevAddr: requires a non-empty address, for the same reason.
- AddrParse.HwParseDisplay: stated for non-empty addresses only; the empty address displays as the empty string, which `parse_hw` does not read back as zero octets.
- Decode.Cursor.DecodeU48Le: keeps the code's demand for 8 remaining octets although only 6 are consumed; no corrected length check is modelled.
- Ipv4Hdr.OptionsBytesLength: proved only for options whose `actual_length` equals what `serialize` writes, which excludes the route-record quirk and raw options without a length octet.
- Ipv4Hdr.HeaderBytesLength: under the same restriction on the options.
- Ipv4Dissect.HeaderRoundTrip: the dissector of a single option (`Opt::dissect`) is a parameter, assumed to read back what `Opt::serialize` writes; the option codec's own parser is not part of this model.
- Ipv4Dissect.DissectHeader: a buffer shorter than the 20-octet fixed part is reported as `Incomplete(20 - |buf|)`, the whole shortfall; the field decoders (`u8::decode`, `u16::decode_be`, `IPv4Address::decode`) that read the fixed part field by field are not part of this model, and the count they report may be only what the first short field needs.
- Decode.Cursor.DecodeU16BeSlice: models the default element-by-element loop of `decode_be_slice`, used on little-endian targets, which fills the elements that fit and then fails with `NeedMore`; the `u16` override used on big-endian targets, which checks the whole length first and writes nothing on failure, is not modelled.
- Ipv4Opts.Length: the RR and SSRR length undercount is kept as written and not corrected; only its discrepancy with `serialize` is stated.
- IntervalSet.IntervalSet.Insert: requires a non-empty interval (start < end); empty or inverted ranges, which `insert` accepts, are not modelled.
- IntervalSet.IntervalSet.Remove: requires a non-empty interval, for the same reason.
- IntervalSet.IntervalSet.AffectedRanges: the corrected `affected` is computed from the positions of the interval's two ends rather than by the code's case analysis.
- `IntervalSet<T>` is modelled over integers; a `PartialOrd` type with incomparable values is not. `intervals()` is the `ranges` field itself.
- PcapngTime.Timestamp: the pair (seconds, nanoseconds) stands for `UNIX_EPOCH + Duration`; the addition to `SystemTime`, which can panic for seconds beyond the platform's range, is not modelled.
- The inner PDU is abstracted to its length and, for Ethernet, its ethertype; `update_proto`, the dissection of payloads through the session's tables and `set_inner_pdu` are not modelled.
- Ethernet II dissection: the classification of the trailer after the inner PDU (`Auto`, `Zeros` or `Manual`) depends on the inner dissection and is not modelled; its zero count runs over the buffer handed to the frame rather than over the trailer.
- The IPv6 `Display` compresses a single zero word, which section 4.2.2 of RFC 5952 advises against; the model keeps the code's behaviour and states the RFC variant beside it, without replacing it.
- Encoders, `std::io` errors, the `Dump` output, the derive macros, `get_str` of the `bytes!` macro and all I/O are not modelled; serialisation is modelled as the byte sequence written.
- Machine-width overflow of `usize` sums (for example `header_len + inner_len`) is not modelled; lengths are unbounded naturals except where the code converts them to a fixed width.

## Findings

| source | as written | input that shows it | evidently intended | confidence | as-written member | corrected member |
|---|---|---|---|---|---|---|
| ende/src/decode.rs:649-660 | U24 `decode_le` copies the 3 octets into octets 1..3 of a 4-octet buffer read little-endian, shifting the value up one octet and masking off the last input octet | [1, 2, 3] gives 0x020100 | 0x030201 | not executed; high | Decode.U24LeAsWrittenDropsLastByte | Decode.U24Le |
| ende/src/decode.rs:701-712 | U48 `decode_le` copies the 6 octets into octets 2..8 of an 8-octet buffer read little-endian, losing the last two input octets | [1, 2, 3, 4, 5, 6] gives 0x040302010000 | 0x060504030201 | not executed; high | Decode.U48LeAsWrittenExample | Decode.U48Le |
| address/src/lib.rs:246-248 | `contains` compares the masked address with the stored base, which may have host bits set | 1.1.1.1/16 does not contain 1.1.0.5 | membership of base_addr()..=last() | not executed; medium | Address.ContainsExample | Address.ContainsAddrIsRange |
| address/src/hw.rs:196-199 | `\|` applies `&=` | ff \| 00 gives 00 | ff | not executed; high | Hw.BitOrAsWrittenExample | Hw.BitOrCorrected |
| address/src/hw.rs:243-246 | `^` applies `&=` | a ^ a gives a | all zeros | not executed; high | Hw.BitXorAsWrittenSelf | Hw.BitXorCorrected |
| address/parse/src/lib.rs:157-160 | after the eighth word behind "::" the index is decremented below 0 | "::1:2:3:4:5:6:7:8" (a panic in debug builds) | the eight words fill the address, as the bound check at line 150 admits | not executed; medium | Ipv6Parse.UnderflowExample | Ipv6Parse.EightAfterDoubleColonCorrected |
| address/parse/src/lib.rs:162-172 | a dotted tail after "::" returns at once, before the words in front of it are stored | "::ffff:1.2.3.4" gives ::1.2.3.4 | ::ffff:1.2.3.4 | not executed; high | Ipv6Parse.MappedAsWritten | Ipv6Parse.MappedCorrected |
| address/parse/src/lib.rs:122-131 | a dotted address at octet 12 returns at once, ignoring any words after it | "1:2:3:4:5:6:1.2.3.4:7" is accepted | `InvalidLength` | not executed; high | Ipv6Parse.TrailingAsWritten | Ipv6Parse.TrailingCorrected |
| protos/src/ipv4.rs:1681-1684 | `make_canonical` sets automatic padding, then takes the header length from the stale ihl | ihl 6 without options: slicing 4 octets of the 3-octet padding array panics | ihl 5, a 20-octet header | not executed; high | Ipv4Hdr.MakeCanonicalAsWrittenPanics | Ipv4Hdr.CanonicalLengths |
| protos/src/ipv4.rs:1684-1689 | the header length is divided by 4 with truncation and not padded first | one NOP option: ihl 5 for a 21-octet header | 24 octets with ihl 6 | not executed; high | Ipv4Hdr.MakeCanonicalAsWrittenNopExample | Ipv4Hdr.CanonicalLengths |
| protos/src/ipv4.rs:1302 | `totlen - hdr_data.len()` underflows when the total length is below the header length | a 20-octet header with total length 0 | a dissection error | not executed; high | Ipv4Dissect.SplitPayloadAsWrittenExample | Ipv4Dissect.SplitPayload |
| protos/src/ethernet_ii.rs:229-231 | `46 - inner_len` underflows when more than 46 octets were written | automatic trailer, 47-octet payload | no trailer, as `trailer()` and `total_len` say | not executed; high | EthernetII.SerializeLongPayload | EthernetII.SerializeLength |
| capfile/src/pcapng/sniffer.rs:33 | `(ts mod 10^r) · 10^9` overflows 64 bits for fine resolutions | ts 99 999 999 999 at resolution 10^-11 | 0 s 999 999 999 ns | not executed; high | PcapngTime.DecimalOverflowExample | PcapngTime.TimestampIsTruncatedNanos |
| src/utils/interval_set.rs:26-39 | the binary search halves a rounded-up offset and can stop next to the range holding the value | [0,1) [2,3) [4,5) [6,7) and 0 gives `Below(1)`, so `contains(0)` is false | `Contains(0)` | not executed; high | IntervalSet.SearchMissesFirst | IntervalSet.LocateCovered |
| src/utils/interval_set.rs:26-38 | the search can step the index past the last range | [0,1) [2,3) and 5 indexes range 2 and panics | `Above(1)` | not executed; high | IntervalSet.SearchOutOfBounds | IntervalSet.LocateContains |
| src/utils/interval_set.rs:75 | the comparison is inverted | [5,7) in [0,2) [4,6) [8,10) is said to affect [8,10) | only [4,6) | not executed; high | IntervalSet.AffectedOverreaches | IntervalSet.AffectedMeaning |
| src/utils/interval_set.rs:155-157 | a value above the last range gives the gap before that range | [5,6) after [0,1) gives the gap at 0, so `insert` stores [5,6) [0,1) | the gap at 1 | not executed; high | IntervalSet.AffectedMisplacesAbove | IntervalSet.AffectedMeaning |
| src/utils/interval_set.rs:183-188 | the swap loop stops after hi − lo swaps and the truncation drops the ranges not yet moved | removing slice 1..2 of four ranges also drops the last range | only ranges lo..hi removed | not executed; high | IntervalSet.CollapseAsWrittenLoses | IntervalSet.IntervalSet.Collapse |
| src/utils/interval_set.rs:238-252 | in the general case of `remove` the branches for the first and last affected ranges are swapped, so ranges sticking out of the interval are dropped instead of trimmed | removing [2,8) from [0,4) [5,6) [7,10) leaves nothing | [0,2) [8,10) | not executed; high | IntervalSet.RemoveSpanErases | IntervalSet.RemoveMeaning |
