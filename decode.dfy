/**
 * Decoding fixed-width integers from a byte cursor (`DecodeBuf` over a byte
 * slice). Every decoder first checks that enough bytes remain and fails with
 * `NeedMore` without consuming anything otherwise; on success it consumes
 * exactly the bytes it read.
 */
module Decode {
  import opened Bits
  import opened Wrappers
  import BitPack

  datatype DecodeError = NeedMore | Malformed

  /** The value `U24::decode_le` stores for three input bytes, as written. */
  function U24LeAsWritten(b: seq<u8>): (v: nat)
    requires |b| == 3
    ensures v < Pow2(24)
  {
    // The three bytes are copied to `tmp[1..]` of a zeroed `[u8; 4]`, read
    // with `u32::from_le_bytes` and masked to 24 bits.
    LeValue([0] + b) % Pow2(24)
  }

  /** The value `U48::decode_le` stores for six input bytes, as written. */
  function U48LeAsWritten(b: seq<u8>): (v: nat)
    requires |b| == 6
    ensures v < Pow2(48)
  {
    // The six bytes are copied to `tmp[2..]` of a zeroed `[u8; 8]`, read
    // with `u64::from_le_bytes` and masked to 48 bits.
    LeValue([0, 0] + b) % Pow2(48)
  }

  /** The little-endian value of three bytes, the inverse of `to_le_bytes` for a U24. */
  function U24Le(b: seq<u8>): (v: nat)
    requires |b| == 3
    ensures v < Pow2(24) && LeBytes(v, 3) == b
  {
    LeValueBound(b);
    LeBytesOfValue(b);
    LeValue(b)
  }

  /** The little-endian value of six bytes, the inverse of `to_le_bytes` for a U48. */
  function U48Le(b: seq<u8>): (v: nat)
    requires |b| == 6
    ensures v < Pow2(48) && LeBytes(v, 6) == b
  {
    LeValueBound(b);
    LeBytesOfValue(b);
    LeValue(b)
  }

  /** As written, the last byte of a little-endian U24 is lost: [1, 2, 3] reads as 0x020100. */
  lemma U24LeAsWrittenDropsLastByte(b: seq<u8>)
    requires |b| == 3
    ensures U24LeAsWritten(b) == 0x100 * b[0] as int + 0x1_0000 * b[1] as int
    ensures U24LeAsWritten([1, 2, 3]) == 0x02_0100 != U24Le([1, 2, 3]) == 0x03_0201
  {
    Pow2Of24();
    var t := [0] + b;
    LeValue4(t);
    DivModUnique(LeValue(t), 0x100_0000, b[2], 0x100 * b[0] as int + 0x1_0000 * b[1] as int);
    LeValue3([1, 2, 3]);
    LeValue4([0, 1, 2, 3]);
  }

  lemma LeValue3(b: seq<u8>)
    requires |b| == 3
    ensures LeValue(b) == b[0] as int + 0x100 * b[1] as int + 0x1_0000 * b[2] as int
  {
    var b1 := b[1..];
    var b2 := b1[1..];
    assert b2[1..] == [];
    assert LeValue(b2) == b[2] as int;
    assert LeValue(b1) == b[1] as int + 0x100 * b[2] as int;
  }

  lemma LeValue4(b: seq<u8>)
    requires |b| == 4
    ensures LeValue(b) == b[0] as int + 0x100 * b[1] as int + 0x1_0000 * b[2] as int + 0x100_0000 * b[3] as int
  {
    LeValue3(b[1..]);
  }

  /** As written, the last two bytes of a little-endian U48 are lost. */
  lemma U48LeAsWrittenDropsLastBytes(b: seq<u8>)
    requires |b| == 6
    ensures U48LeAsWritten(b) == 0x1_0000 * LeValue(b[..4])
  {
    ShiftedLeValue(b);
    LeValueBound(b[..4]);
    DropHighBytes(LeValue([0, 0] + b), LeValue(b[..4]), LeValue(b[4..]));
  }

  /** The zeroed scratch bytes shift the six bytes up by two octets. */
  lemma ShiftedLeValue(b: seq<u8>)
    requires |b| == 6
    ensures LeValue([0, 0] + b) == 0x1_0000 * LeValue(b[..4]) + Pow2(48) * LeValue(b[4..])
  {
    var t := [0, 0] + b;
    LeValueSplit(t, 6);
    assert t[..6] == [0, 0] + b[..4] && t[6..] == b[4..];
    ZeroPrefixLeValue(b[..4]);
  }

  lemma ZeroPrefixLeValue(c: seq<u8>)
    ensures LeValue([0, 0] + c) == 0x1_0000 * LeValue(c)
  {
    Pow2Of16();
    var lo := [0, 0] + c;
    LeValueSplit(lo, 2);
    assert lo[..2] == [0, 0] && lo[2..] == c;
    assert LeValue([0, 0]) == 0;
  }

  lemma DropHighBytes(x: nat, lo: nat, hi: nat)
    requires lo < Pow2(8 * 4) && x == 0x1_0000 * lo + Pow2(48) * hi
    ensures x % Pow2(48) == 0x1_0000 * lo
  {
    Pow2Of16();
    Pow2Add(16, 32);
    MulMonotone(0x1_0000, lo, Pow2(32) - 1);
    DivModUnique(x, Pow2(48), hi, 0x1_0000 * lo);
  }

  /** Bytes 1..6 read as 0x040302010000 instead of 0x060504030201. */
  lemma U48LeAsWrittenExample()
    ensures U48LeAsWritten([1, 2, 3, 4, 5, 6]) == 0x0403_0201_0000 != U48Le([1, 2, 3, 4, 5, 6])
  {
    var c: seq<u8> := [1, 2, 3, 4, 5, 6];
    U48LeAsWrittenDropsLastBytes(c);
    LeValue4(c[..4]);
    LeValueSplit(c, 4);
    Pow2Values();
    Pow2Add(16, 16);
    assert c[4..] == [5, 6] && [5, 6][1..] == [6] && [6][1..] == [];
    assert LeValue(c[4..]) == 5 + 0x100 * 6;
    assert LeValue(c) == 0x0605_0403_0201;
  }

  /** A little-endian value splits at any byte boundary. */
  lemma {:induction false} LeValueSplit(s: seq<u8>, k: nat)
    requires k <= |s|
    ensures LeValue(s) == LeValue(s[..k]) + Pow2(8 * k) * LeValue(s[k..])
  {
    if k > 0 {
      LeValueSplit(s[1..], k - 1);
      assert s[1..][..k - 1] == s[..k][1..] && s[1..][k - 1..] == s[k..];
      Pow2Add(8, 8 * (k - 1));
      Pow2Of8();
      calc {
        LeValue(s);
        s[0] + 256 * (LeValue(s[..k][1..]) + Pow2(8 * (k - 1)) * LeValue(s[k..]));
        { MulDistributes(256, LeValue(s[..k][1..]), Pow2(8 * (k - 1)) * LeValue(s[k..])); }
        s[0] + 256 * LeValue(s[..k][1..]) + 256 * (Pow2(8 * (k - 1)) * LeValue(s[k..]));
        { MulAssociates(256, Pow2(8 * (k - 1)), LeValue(s[k..])); }
        LeValue(s[..k]) + Pow2(8 * k) * LeValue(s[k..]);
      }
    } else {
      assert s[k..] == s;
    }
  }

  /** A byte slice used as a `DecodeBuf`: decoding consumes bytes from its front. */
  class Cursor {
    var rest: seq<u8>

    constructor (data: seq<u8>)
      ensures rest == data
    {
      rest := data;
    }

    /** `DecodeBuf::skip`. */
    method Skip(n: nat) returns (r: Result<(), DecodeError>)
      modifies this
      ensures n > |old(rest)| ==> r == Err(NeedMore) && rest == old(rest)
      ensures n <= |old(rest)| ==> r == Ok(()) && rest == old(rest)[n..]
    {
      if n > |rest| {
        return Err(NeedMore);
      }
      rest := rest[n..];
      return Ok(());
    }

    /** `u8::decode`. */
    method DecodeU8() returns (r: Result<u8, DecodeError>)
      modifies this
      ensures old(rest) == [] ==> r == Err(NeedMore) && rest == old(rest)
      ensures old(rest) != [] ==> r == Ok(old(rest)[0]) && rest == old(rest)[1..]
    {
      if rest == [] {
        return Err(NeedMore);
      }
      r := Ok(rest[0]);
      rest := rest[1..];
    }

    /** `u8::decode_slice`: all of `slice` is filled from the input, or nothing is read. */
    method DecodeU8Slice(slice: array<u8>) returns (r: Result<(), DecodeError>)
      modifies this, slice
      ensures |old(rest)| < slice.Length ==>
        r == Err(NeedMore) && rest == old(rest) && slice[..] == old(slice[..])
      ensures |old(rest)| >= slice.Length ==>
        r == Ok(()) && slice[..] == old(rest)[..slice.Length] && rest == old(rest)[slice.Length..]
    {
      if |rest| < slice.Length {
        return Err(NeedMore);
      }
      var i := 0;
      while i < slice.Length
        invariant 0 <= i <= slice.Length <= |rest|
        invariant rest == old(rest)
        invariant slice[..i] == rest[..i]
      {
        slice[i] := rest[i];
        i := i + 1;
      }
      assert slice[..] == slice[..slice.Length];
      rest := rest[slice.Length..];
      return Ok(());
    }

    /** `u16::decode_be`. */
    method DecodeU16Be() returns (r: Result<u16, DecodeError>)
      modifies this
      ensures |old(rest)| < 2 ==> r == Err(NeedMore) && rest == old(rest)
      ensures |old(rest)| >= 2 ==>
        r == Ok(old(rest)[0] as int * 0x100 + old(rest)[1] as int) && rest == old(rest)[2..]
    {
      if |rest| < 2 {
        return Err(NeedMore);
      }
      r := Ok(rest[0] as int * 0x100 + rest[1] as int);
      rest := rest[2..];
    }

    /** `u16::decode_le`. */
    method DecodeU16Le() returns (r: Result<u16, DecodeError>)
      modifies this
      ensures |old(rest)| < 2 ==> r == Err(NeedMore) && rest == old(rest)
      ensures |old(rest)| >= 2 ==>
        r == Ok(old(rest)[1] as int * 0x100 + old(rest)[0] as int) && rest == old(rest)[2..]
    {
      if |rest| < 2 {
        return Err(NeedMore);
      }
      r := Ok(rest[1] as int * 0x100 + rest[0] as int);
      rest := rest[2..];
    }

    /** `U24::decode_be`: three bytes, most significant first. */
    method DecodeU24Be() returns (r: Result<nat, DecodeError>)
      modifies this
      ensures |old(rest)| < 3 ==> r == Err(NeedMore) && rest == old(rest)
      ensures |old(rest)| >= 3 ==>
        r == Ok(BeValue(old(rest)[..3])) && BeValue(old(rest)[..3]) < Pow2(24) &&
        BeBytes(r.value, 3) == old(rest)[..3] && rest == old(rest)[3..]
    {
      if |rest| < 3 {
        return Err(NeedMore);
      }
      var tmp: seq<u8> := [0] + rest[..3];
      ZeroPrefixBe([0], rest[..3]);
      BeValueBound(rest[..3]);
      Pow2Values();
      BeBytesOfValue(rest[..3]);
      r := Ok(BeValue(tmp) % Pow2(24));
      rest := rest[3..];
    }

    /** `U24::decode_le`, as written. */
    method DecodeU24Le() returns (r: Result<nat, DecodeError>)
      modifies this
      ensures |old(rest)| < 3 ==> r == Err(NeedMore) && rest == old(rest)
      ensures |old(rest)| >= 3 ==> r == Ok(U24LeAsWritten(old(rest)[..3])) && rest == old(rest)[3..]
    {
      if |rest| < 3 {
        return Err(NeedMore);
      }
      var tmp: seq<u8> := [0] + rest[..3];
      r := Ok(LeValue(tmp) % Pow2(24));
      rest := rest[3..];
    }

    /** `U48::decode_le`, as written: it asks for eight bytes and reads six. */
    method DecodeU48Le() returns (r: Result<nat, DecodeError>)
      modifies this
      ensures |old(rest)| < 8 ==> r == Err(NeedMore) && rest == old(rest)
      ensures |old(rest)| >= 8 ==> r == Ok(U48LeAsWritten(old(rest)[..6])) && rest == old(rest)[6..]
    {
      if |rest| < 8 {
        return Err(NeedMore);
      }
      var tmp: seq<u8> := [0, 0] + rest[..6];
      r := Ok(LeValue(tmp) % Pow2(48));
      rest := rest[6..];
    }

    /**
     * The default `decode_be_slice`, for `u16` elements: decodes the elements
     * in order and stops at the first failure, leaving the elements decoded
     * before it written.
     */
    method DecodeU16BeSlice(slice: array<u16>) returns (r: Result<(), DecodeError>)
      modifies this, slice
      ensures var n := if |old(rest)| / 2 < slice.Length then |old(rest)| / 2 else slice.Length;
        && (r.Ok? <==> |old(rest)| >= 2 * slice.Length)
        && (r.Err? ==> r.error == NeedMore)
        && rest == old(rest)[2 * n..]
        && (forall i :: 0 <= i < n ==> slice[i] == old(rest)[2 * i] as int * 0x100 + old(rest)[2 * i + 1] as int)
        && (forall i :: n <= i < slice.Length ==> slice[i] == old(slice[i]))
    {
      ghost var input := rest;
      var i := 0;
      while i < slice.Length
        invariant 0 <= i <= slice.Length && 2 * i <= |input|
        invariant rest == input[2 * i..]
        invariant forall k :: 0 <= k < i ==> slice[k] == input[2 * k] as int * 0x100 + input[2 * k + 1] as int
        invariant forall k :: i <= k < slice.Length ==> slice[k] == old(slice[k])
      {
        var item := DecodeU16Be();
        if item.Err? {
          return Err(item.error);
        }
        slice[i] := item.value;
        i := i + 1;
      }
      return Ok(());
    }

    /**
     * `Decode` for a bit-packed tuple whose packed type is `u8`: one byte is
     * read and unpacked into fields of the given widths.
     */
    method DecodePackedU8(widths: seq<nat>) returns (r: Result<seq<nat>, DecodeError>)
      requires |widths| >= 1 && BitPack.Sum(widths) == 8
      modifies this
      ensures old(rest) == [] ==> r == Err(NeedMore) && rest == old(rest)
      ensures old(rest) != [] ==>
        r == Ok(BitPack.UnpackTuple(old(rest)[0], widths)) && rest == old(rest)[1..] &&
        BitPack.PackTuple(r.value, widths) == old(rest)[0]
    {
      var packed := DecodeU8();
      if packed.Err? {
        return Err(packed.error);
      }
      Pow2Values();
      BitPack.PackUnpackTuple(packed.value, widths);
      return Ok(BitPack.UnpackTuple(packed.value, widths));
    }

    /** `DecodeBe` for a bit-packed tuple whose packed type is `u16`. */
    method DecodePackedU16Be(widths: seq<nat>) returns (r: Result<seq<nat>, DecodeError>)
      requires |widths| >= 1 && BitPack.Sum(widths) == 16
      modifies this
      ensures |old(rest)| < 2 ==> r == Err(NeedMore) && rest == old(rest)
      ensures |old(rest)| >= 2 ==>
        r == Ok(BitPack.UnpackTuple(old(rest)[0] as int * 0x100 + old(rest)[1] as int, widths)) &&
        rest == old(rest)[2..] &&
        BitPack.PackTuple(r.value, widths) == old(rest)[0] as int * 0x100 + old(rest)[1] as int
    {
      var packed := DecodeU16Be();
      if packed.Err? {
        return Err(packed.error);
      }
      Pow2Values();
      BitPack.PackUnpackTuple(packed.value, widths);
      return Ok(BitPack.UnpackTuple(packed.value, widths));
    }
  }

  /**
   * The first two bytes of the IPv4 header test: 0x45 unpacks to version 4
   * and header length 5, and 0x4000 to flags 2 and fragment offset 0.
   */
  lemma Ipv4HeaderFieldsExample()
    ensures BitPack.UnpackTuple(0x45, [4, 4]) == [4, 5]
    ensures BitPack.UnpackTuple(0x4000, [3, 13]) == [2, 0]
    ensures BitPack.UnpackTuple(0x00, [6, 2]) == [0, 0]
  {
    VersionIhlExample();
    FlagsOffsetExample();
    DscpEcnExample();
  }

  lemma VersionIhlExample()
    ensures BitPack.UnpackTuple(0x45, [4, 4]) == [4, 5]
  {
    assert Pow2(4) == 16;
    assert BitPack.Sum([4]) == 4;
    assert Shr(0x45, 4) == 4;
    assert BitPack.UnpackPair(0x45, 4, 4) == (4, 5);
  }

  lemma FlagsOffsetExample()
    ensures BitPack.UnpackTuple(0x4000, [3, 13]) == [2, 0]
  {
    Pow2Of8();
    assert Pow2(3) == 8 && Pow2(5) == 32;
    Pow2Add(8, 5);
    assert Pow2(13) == 0x2000;
    assert BitPack.Sum([13]) == 13;
    assert Shr(0x4000, 13) == 2;
    assert BitPack.UnpackPair(0x4000, 3, 13) == (2, 0);
  }

  lemma DscpEcnExample()
    ensures BitPack.UnpackTuple(0x00, [6, 2]) == [0, 0]
  {
    assert Pow2(2) == 4 && Pow2(6) == 64;
    assert BitPack.Sum([2]) == 2;
    assert BitPack.UnpackPair(0, 6, 2) == (0, 0);
  }
}
