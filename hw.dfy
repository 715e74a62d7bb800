/**
 * `HwAddress<LEN>`: a hardware address of LEN raw octets. The byte loops of
 * `pad_right`, `pad_left`, `from_prefix_len`, `as_prefix_len`, `next_addr`,
 * `prev_addr`, the bitwise operators and `Display` are methods over arrays,
 * each proved against a function on the octet sequence, and those functions
 * are related to the big-endian value of the address.
 */
module Hw {
  import opened Bits
  import Address
  import Text

  /** LEN is the length of the sequence. */
  type HwAddress = seq<u8>

  function Fill(n: nat, b: u8): (s: seq<u8>)
    ensures |s| == n && forall i :: 0 <= i < n ==> s[i] == b
  {
    seq(n, _ => b)
  }

  // ---------------------------------------------------------------------
  // pad_right / pad_left
  // ---------------------------------------------------------------------

  /** The first min(LEN, NEW_LEN) octets, then `padding` up to NEW_LEN. */
  function PaddedRight(a: HwAddress, n: nat, padding: u8): (r: HwAddress)
    ensures |r| == n
    ensures forall i :: 0 <= i < n && i < |a| ==> r[i] == a[i]
    ensures forall i :: |a| <= i < n ==> r[i] == padding
  {
    if n <= |a| then a[..n] else a + Fill(n - |a|, padding)
  }

  /** The last min(LEN, NEW_LEN) octets, right-aligned after `padding`. */
  function PaddedLeft(a: HwAddress, n: nat, padding: u8): (r: HwAddress)
    ensures |r| == n
    ensures forall i :: 0 <= i < n && n - i <= |a| ==> r[i] == a[|a| - n + i]
    ensures forall i :: 0 <= i < n - |a| ==> r[i] == padding
  {
    if n <= |a| then a[|a| - n..] else Fill(n - |a|, padding) + a
  }

  /** `pad_right`. */
  method PadRight(a: HwAddress, n: nat, padding: u8) returns (r: HwAddress)
    ensures r == PaddedRight(a, n, padding)
  {
    var addr := new u8[n](_ => padding);
    var idx: nat := 0;
    while idx < |a| && idx < n
      invariant idx <= n && idx <= |a|
      invariant forall i :: 0 <= i < idx ==> addr[i] == a[i]
      invariant forall i :: idx <= i < n ==> addr[i] == padding
    {
      addr[idx] := a[idx];
      idx := idx + 1;
    }
    r := addr[..];
  }

  /** `pad_left`: both lengths must be at least one (`LEN - 1` and `NEW_LEN - 1` are computed). */
  method PadLeft(a: HwAddress, n: nat, padding: u8) returns (r: HwAddress)
    requires |a| >= 1 && n >= 1
    ensures r == PaddedLeft(a, n, padding)
  {
    var addr := new u8[n](_ => padding);
    var oldIdx: nat := |a| - 1;
    var newIdx: nat := n - 1;
    while true
      invariant newIdx < n && oldIdx < |a| && n - 1 - newIdx == |a| - 1 - oldIdx
      invariant forall i :: newIdx < i < n ==> addr[i] == a[|a| - n + i]
      invariant forall i :: 0 <= i <= newIdx ==> addr[i] == padding
      decreases newIdx
    {
      addr[newIdx] := a[oldIdx];
      if newIdx == 0 || oldIdx == 0 {
        break;
      }
      newIdx := newIdx - 1;
      oldIdx := oldIdx - 1;
    }
    r := addr[..];
  }

  /** `from_prefix`: padding with zeros on the right shifts the value up by whole octets. */
  lemma PaddedRightValue(a: HwAddress, n: nat)
    requires n >= |a|
    ensures BeValue(PaddedRight(a, n, 0)) == BeValue(a) * Pow2(8 * (n - |a|))
  {
    var z := Fill(n - |a|, 0);
    assert PaddedRight(a, n, 0) == a + z;
    BeValueAppend(a, z);
    ZerosBe(z);
  }

  /** `from_suffix`: padding with zeros on the left keeps the value. */
  lemma PaddedLeftValue(a: HwAddress, n: nat)
    requires n >= |a|
    ensures BeValue(PaddedLeft(a, n, 0)) == BeValue(a)
  {
    var z := Fill(n - |a|, 0);
    if n > |a| {
      assert PaddedLeft(a, n, 0) == z + a;
    } else {
      assert PaddedLeft(a, n, 0) == z + a;
    }
    ZeroPrefixBe(z, a);
  }

  /** Truncating a right-padded address back to its length gives it back. */
  lemma PadRightTruncate(a: HwAddress, n: nat, p: u8, q: u8)
    requires n >= |a|
    ensures PaddedRight(PaddedRight(a, n, p), |a|, q) == a
  {
  }

  /** Truncating a left-padded address back to its length gives it back. */
  lemma PadLeftTruncate(a: HwAddress, n: nat, p: u8, q: u8)
    requires n >= |a|
    ensures PaddedLeft(PaddedLeft(a, n, p), |a|, q) == a
  {
  }

  // ---------------------------------------------------------------------
  // from_prefix_len / as_prefix_len
  // ---------------------------------------------------------------------

  /** `!(!0u8 >> p)` for p below 8: the top p bits of an octet. */
  function ByteMask(p: nat): (m: u8)
    requires p < 8
  {
    Pow2Of8();
    Not(Shr(0xff, p), 8)
  }

  lemma ByteMaskIsPrefixMask(p: nat)
    requires p < 8
    ensures ByteMask(p) == Address.PrefixMask(8, p) && ByteMask(p) < 0xff
  {
    Pow2Of8();
    OnesShiftRight(8, p);
    Pow2Monotone(1, 8 - p);
    assert Pow2(1) == 2;
  }

  /** The octets of the mask with the first p of 8n bits set. */
  function MaskBytes(n: nat, p: nat): (s: HwAddress)
    ensures |s| == n
  {
    if n == 0 then []
    else if p >= 8 then [0xff] + MaskBytes(n - 1, p - 8)
    else [ByteMask(p)] + Fill(n - 1, 0)
  }

  /** The value of one octet followed by `rest`. */
  lemma BeValueHead(x: u8, rest: seq<u8>)
    ensures BeValue([x] + rest) == x * Pow2(8 * |rest|) + BeValue(rest)
  {
    BeValueAppend([x], rest);
    assert BeValue([x]) == x by {
      assert [x][..0] == [];
    }
  }

  /** The mask octets are the 8n-bit prefix mask, byte by byte. */
  lemma {:induction false} MaskBytesValue(n: nat, p: nat)
    ensures BeValue(MaskBytes(n, p)) == Address.PrefixMask(8 * n, p)
  {
    if n > 0 {
      if p >= 8 {
        MaskBytesValue(n - 1, p - 8);
        MaskFullOctet(n, p);
      } else {
        MaskPartialOctet(n, p);
      }
    }
  }

  lemma MaskFullOctet(n: nat, p: nat)
    requires n > 0 && p >= 8
    requires BeValue(MaskBytes(n - 1, p - 8)) == Address.PrefixMask(8 * (n - 1), p - 8)
    ensures BeValue(MaskBytes(n, p)) == Address.PrefixMask(8 * n, p)
  {
    var w := 8 * (n - 1);
    var P := Pow2(w);
    var rest := MaskBytes(n - 1, p - 8);
    assert MaskBytes(n, p) == [0xff] + rest;
    assert 8 * |rest| == w;
    BeValueHead(0xff, rest);
    assert BeValue(MaskBytes(n, p)) == 0xff * P + BeValue(rest);
    Pow2Add(8, w);
    Pow2Of8();
    assert Pow2(8 * n) == 256 * P;
    var k := w - Address.Min(p - 8, w);
    assert 8 * n - Address.Min(p, 8 * n) == k;
    assert Pow2(8 * n - Address.Min(p, 8 * n)) == Pow2(k);
    assert Address.PrefixMask(8 * n, p) + Pow2(k) == 256 * P;
    assert Address.PrefixMask(w, p - 8) + Pow2(k) == P;
  }

  lemma MaskPartialOctet(n: nat, p: nat)
    requires n > 0 && p < 8
    ensures BeValue(MaskBytes(n, p)) == Address.PrefixMask(8 * n, p)
  {
    var w := 8 * (n - 1);
    var P := Pow2(w);
    var X := Pow2(8 - p);
    var m := ByteMask(p);
    assert BeValue(MaskBytes(n, p)) == m * P by {
      BeValueHead(m, Fill(n - 1, 0));
      ZerosBe(Fill(n - 1, 0));
    }
    assert m == 256 - X by {
      ByteMaskIsPrefixMask(p);
      Pow2Of8();
    }
    assert Pow2(8 * n) == 256 * P by {
      Pow2Add(8, w);
      Pow2Of8();
    }
    assert Pow2(8 * n - p) == X * P by {
      Pow2Add(8 - p, w);
    }
    assert Address.PrefixMask(8 * n, p) == Pow2(8 * n) - Pow2(8 * n - p);
    ScaleDifference(m, X, P);
  }

  lemma ScaleDifference(m: int, x: int, p: int)
    requires m == 256 - x
    ensures m * p == 256 * p - x * p
  {
  }

  /** At or beyond 8n bits every octet is 0xff. */
  lemma {:induction false} MaskBytesFull(n: nat, p: nat)
    requires p >= 8 * n
    ensures MaskBytes(n, p) == Fill(n, 0xff)
  {
    if n > 0 {
      MaskBytesFull(n - 1, p - 8);
    }
  }

  /** Below 8n bits: p/8 octets of 0xff, one partial octet, then zeros. */
  lemma {:induction false} MaskBytesShape(n: nat, p: nat)
    requires p < 8 * n
    ensures MaskBytes(n, p) == Fill(p / 8, 0xff) + [ByteMask(p % 8)] + Fill(n - p / 8 - 1, 0)
  {
    if p >= 8 {
      MaskBytesShape(n - 1, p - 8);
      assert (p - 8) / 8 == p / 8 - 1 && (p - 8) % 8 == p % 8;
      assert [0xff] + Fill(p / 8 - 1, 0xff) == Fill(p / 8, 0xff);
    } else {
      assert p / 8 == 0 && p % 8 == p;
    }
  }

  /** `from_prefix_len`. */
  method FromPrefixLen(n: nat, prefixLen: nat) returns (r: HwAddress)
    ensures r == MaskBytes(n, prefixLen)
  {
    if prefixLen >= 8 * n {
      MaskBytesFull(n, prefixLen);
      return Fill(n, 0xff);
    }
    var addr := new u8[n](_ => 0);
    var idx: nat := 0;
    var p: nat := prefixLen;
    while p >= 8
      invariant p + 8 * idx == prefixLen && idx < n
      invariant forall i :: 0 <= i < idx ==> addr[i] == 0xff
      invariant forall i :: idx <= i < n ==> addr[i] == 0
    {
      addr[idx] := 0xff;
      idx := idx + 1;
      p := p - 8;
    }
    addr[idx] := ByteMask(p);
    r := addr[..];
    MaskBytesShape(n, prefixLen);
    assert idx == prefixLen / 8 && p == prefixLen % 8;
    assert r == Fill(idx, 0xff) + [ByteMask(p)] + Fill(n - idx - 1, 0);
  }

  /** Leading one bits, counted octet by octet until the first octet that is not 0xff. */
  function PrefixLenOf(s: HwAddress): nat
  {
    if s == [] then 0
    else if s[0] == 0xff then 8 + PrefixLenOf(s[1..])
    else Address.LeadingOnes(s[0], 8)
  }

  /** `as_prefix_len`. */
  method AsPrefixLen(a: HwAddress) returns (prefixLen: nat)
    ensures prefixLen == PrefixLenOf(a)
  {
    prefixLen := 0;
    for i := 0 to |a|
      invariant prefixLen + PrefixLenOf(a[i..]) == PrefixLenOf(a)
    {
      assert a[i..][1..] == a[i + 1..];
      if a[i] == 0xff {
        prefixLen := prefixLen + 8;
      } else {
        prefixLen := prefixLen + Address.LeadingOnes(a[i], 8);
        return;
      }
    }
  }

  /** `as_prefix_len(from_prefix_len(p)) == min(p, 8 * LEN)`. */
  lemma {:induction false} PrefixLenRoundTrip(n: nat, p: nat)
    ensures PrefixLenOf(MaskBytes(n, p)) == Address.Min(p, 8 * n)
  {
    if n > 0 {
      var s := MaskBytes(n, p);
      assert s[1..] == MaskBytes(n - 1, if p >= 8 then p - 8 else p) || p < 8;
      if p >= 8 {
        PrefixLenRoundTrip(n - 1, p - 8);
      } else {
        ByteMaskIsPrefixMask(p);
        Pow2Of8();
        Address.LeadingOnesOfMask(8, p);
      }
    }
  }

  // ---------------------------------------------------------------------
  // next_addr / prev_addr
  // ---------------------------------------------------------------------

  /** The octets plus one, the carry running from the last octet towards the first. */
  function Succ(s: HwAddress): (r: HwAddress)
    ensures |r| == |s|
  {
    if s == [] then []
    else if s[|s| - 1] < 0xff then s[..|s| - 1] + [s[|s| - 1] + 1]
    else Succ(s[..|s| - 1]) + [0]
  }

  /** The octets minus one, the borrow running from the last octet towards the first. */
  function Pred(s: HwAddress): (r: HwAddress)
    ensures |r| == |s|
  {
    if s == [] then []
    else if s[|s| - 1] > 0 then s[..|s| - 1] + [s[|s| - 1] - 1]
    else Pred(s[..|s| - 1]) + [0xff]
  }

  /** Where the carry stops at octet `idx`, everything after it becomes zero. */
  lemma {:induction false} SuccCarry(a: HwAddress, idx: nat)
    requires idx < |a| && forall i :: idx < i < |a| ==> a[i] == 0xff
    ensures Succ(a) == Succ(a[..idx + 1]) + Fill(|a| - 1 - idx, 0)
    decreases |a| - idx
  {
    if idx == |a| - 1 {
      assert a[..idx + 1] == a;
    } else {
      var init := a[..|a| - 1];
      SuccCarry(init, idx);
      assert init[..idx + 1] == a[..idx + 1];
      assert Fill(|init| - 1 - idx, 0) + [0] == Fill(|a| - 1 - idx, 0);
    }
  }

  /** Where the borrow stops at octet `idx`, everything after it becomes 0xff. */
  lemma {:induction false} PredBorrow(a: HwAddress, idx: nat)
    requires idx < |a| && forall i :: idx < i < |a| ==> a[i] == 0
    ensures Pred(a) == Pred(a[..idx + 1]) + Fill(|a| - 1 - idx, 0xff)
    decreases |a| - idx
  {
    if idx == |a| - 1 {
      assert a[..idx + 1] == a;
    } else {
      var init := a[..|a| - 1];
      PredBorrow(init, idx);
      assert init[..idx + 1] == a[..idx + 1];
      assert Fill(|init| - 1 - idx, 0xff) + [0xff] == Fill(|a| - 1 - idx, 0xff);
    }
  }

  /** `next_addr`: LEN must be at least one (`LEN - 1` is computed). */
  method NextAddr(a: HwAddress) returns (r: HwAddress)
    requires |a| >= 1
    ensures r == Succ(a)
  {
    var addr := new u8[|a|](i requires 0 <= i < |a| => a[i]);
    var idx: nat := |a| - 1;
    while true
      invariant idx < |a|
      invariant forall i :: 0 <= i <= idx ==> addr[i] == a[i]
      invariant forall i :: idx < i < |a| ==> addr[i] == 0 && a[i] == 0xff
      decreases idx
    {
      var overflow := addr[idx] == 0xff;
      addr[idx] := if overflow then 0 else addr[idx] + 1;
      if !overflow || idx == 0 {
        break;
      }
      idx := idx - 1;
    }
    r := addr[..];
    SuccCarry(a, idx);
    var head := a[..idx + 1];
    assert head[..idx] == a[..idx];
    if idx == 0 && a[0] == 0xff {
      assert Succ(head) == [0];
    }
    assert r == Succ(head) + Fill(|a| - 1 - idx, 0);
  }

  /** `prev_addr`: LEN must be at least one (`LEN - 1` is computed). */
  method PrevAddr(a: HwAddress) returns (r: HwAddress)
    requires |a| >= 1
    ensures r == Pred(a)
  {
    var addr := new u8[|a|](i requires 0 <= i < |a| => a[i]);
    var idx: nat := |a| - 1;
    while true
      invariant idx < |a|
      invariant forall i :: 0 <= i <= idx ==> addr[i] == a[i]
      invariant forall i :: idx < i < |a| ==> addr[i] == 0xff && a[i] == 0
      decreases idx
    {
      var overflow := addr[idx] == 0;
      addr[idx] := if overflow then 0xff else addr[idx] - 1;
      if !overflow || idx == 0 {
        break;
      }
      idx := idx - 1;
    }
    r := addr[..];
    PredBorrow(a, idx);
    var head := a[..idx + 1];
    assert head[..idx] == a[..idx];
    if idx == 0 && a[0] == 0 {
      assert Pred(head) == [0xff];
    }
    assert r == Pred(head) + Fill(|a| - 1 - idx, 0xff);
  }

  /** `prev_addr(next_addr(a)) == a`. */
  lemma {:induction false} PredSucc(s: HwAddress)
    ensures Pred(Succ(s)) == s
  {
    if s != [] {
      var init := s[..|s| - 1];
      if s[|s| - 1] < 0xff {
        assert (init + [s[|s| - 1] + 1])[..|s| - 1] == init;
      } else {
        PredSucc(init);
        assert (Succ(init) + [0])[..|s| - 1] == Succ(init);
      }
    }
  }

  /** `next_addr(prev_addr(a)) == a`. */
  lemma {:induction false} SuccPred(s: HwAddress)
    ensures Succ(Pred(s)) == s
  {
    if s != [] {
      var init := s[..|s| - 1];
      if s[|s| - 1] > 0 {
        assert (init + [s[|s| - 1] - 1])[..|s| - 1] == init;
      } else {
        SuccPred(init);
        assert (Pred(init) + [0xff])[..|s| - 1] == Pred(init);
      }
    }
  }

  /** Scaling both sides of a remainder by the same factor. */
  lemma ModScale(y: nat, p: nat, c: nat)
    requires p > 0 && c > 0
    ensures (y * c) % (p * c) == (y % p) * c
  {
    var q, r := y / p, y % p;
    DivAtMost(y, p);
    assert y == p * q + r;
    MulDistributes(c, p * q, r);
    MulAssociates(c, p, q);
    assert y * c == (p * c) * q + r * c;
    MulMonotone(c, 0, r);
    MulMonotone(c, r, p - 1);
    MulDistributes(c, p, -1);
    DivModUnique(y * c, p * c, q, r * c);
  }

  /** The octets of `next_addr` are the big-endian value plus one, wrapping at 2^(8 LEN). */
  lemma {:induction false} SuccValue(s: HwAddress)
    ensures BeValue(Succ(s)) == Address.NextAddr(8 * |s|, BeValue(s))
  {
    if s == [] {
      assert Pow2(0) == 1;
    } else {
      var init := s[..|s| - 1];
      var last := s[|s| - 1];
      var t := Succ(s);
      var P := Pow2(8 * |init|);
      Pow2Add(8 * |init|, 8);
      Pow2Of8();
      assert Pow2(8 * |s|) == P * 256;
      BeValueBound(init);
      if last < 0xff {
        assert t[..|s| - 1] == init;
        assert BeValue(t) == BeValue(s) + 1;
        assert BeValue(s) + 1 < P * 256;
        ModBelow(BeValue(s) + 1, P * 256);
      } else {
        SuccValue(init);
        assert t[..|s| - 1] == Succ(init);
        assert BeValue(s) + 1 == (BeValue(init) + 1) * 256;
        ModScale(BeValue(init) + 1, P, 256);
      }
    }
  }

  /**
   * The octets of `prev_addr` are the big-endian value minus one, wrapping
   * from zero to 2^(8 LEN) - 1.
   */
  lemma PredValue(s: HwAddress)
    ensures BeValue(s) < Pow2(8 * |s|)
    ensures BeValue(Pred(s)) == if BeValue(s) == 0 then Pow2(8 * |s|) - 1 else BeValue(s) - 1
  {
    PredValueOf(s, BeValue(s), BeValue(Pred(s)));
  }

  lemma PredValueOf(s: HwAddress, u: nat, v: nat)
    requires u == BeValue(s) && v == BeValue(Pred(s))
    ensures u < Pow2(8 * |s|) && v == if u == 0 then Pow2(8 * |s|) - 1 else u - 1
  {
    SuccOfPredValue(s);
    Address.NextAddrWraps(8 * |s|, v);
  }

  lemma SuccOfPredValue(s: HwAddress)
    ensures BeValue(Pred(s)) < Pow2(8 * |s|)
    ensures BeValue(s) == Address.NextAddr(8 * |s|, BeValue(Pred(s)))
  {
    SuccPred(s);
    SuccValue(Pred(s));
    BeValueBound(Pred(s));
  }

  /** The all-0xff address wraps to zero. */
  lemma {:induction false} SuccWraps(n: nat)
    ensures Succ(Fill(n, 0xff)) == Fill(n, 0)
  {
    if n > 0 {
      assert Fill(n, 0xff)[..n - 1] == Fill(n - 1, 0xff);
      SuccWraps(n - 1);
    }
  }

  // ---------------------------------------------------------------------
  // Bitwise operators
  // ---------------------------------------------------------------------

  function ByteAnd(x: u8, y: u8): (r: u8)
  {
    Pow2Of8();
    AndBound(x, y, 8);
    And(x, y, 8)
  }

  function ByteOr(x: u8, y: u8): (r: u8)
  {
    Pow2Of8();
    OrBound(x, y, 8);
    Or(x, y, 8)
  }

  function ByteXor(x: u8, y: u8): (r: u8)
  {
    Pow2Of8();
    XorBound(x, y, 8);
    Xor(x, y, 8)
  }

  function BytesAnd(a: HwAddress, b: HwAddress): (r: HwAddress)
    requires |a| == |b|
    ensures |r| == |a|
  {
    seq(|a|, i requires 0 <= i < |a| => ByteAnd(a[i], b[i]))
  }

  function BytesOr(a: HwAddress, b: HwAddress): (r: HwAddress)
    requires |a| == |b|
    ensures |r| == |a|
  {
    seq(|a|, i requires 0 <= i < |a| => ByteOr(a[i], b[i]))
  }

  function BytesXor(a: HwAddress, b: HwAddress): (r: HwAddress)
    requires |a| == |b|
    ensures |r| == |a|
  {
    seq(|a|, i requires 0 <= i < |a| => ByteXor(a[i], b[i]))
  }

  /** `!` applied to every octet. */
  function BytesNot(a: HwAddress): (r: HwAddress)
    ensures |r| == |a|
  {
    seq(|a|, i requires 0 <= i < |a| => 0xff - a[i])
  }

  /** `bitand_assign`: `*dst &= *src` over the zipped octets. */
  method AndAssign(dst: array<u8>, src: HwAddress)
    requires dst.Length == |src|
    modifies dst
    ensures dst[..] == BytesAnd(old(dst[..]), src)
  {
    ghost var before := dst[..];
    for i := 0 to dst.Length
      invariant forall j :: 0 <= j < i ==> dst[j] == ByteAnd(before[j], src[j])
      invariant forall j :: i <= j < dst.Length ==> dst[j] == before[j]
    {
      dst[i] := ByteAnd(dst[i], src[i]);
    }
  }

  /** `bitor_assign`: `*dst |= *src` over the zipped octets. */
  method OrAssign(dst: array<u8>, src: HwAddress)
    requires dst.Length == |src|
    modifies dst
    ensures dst[..] == BytesOr(old(dst[..]), src)
  {
    ghost var before := dst[..];
    for i := 0 to dst.Length
      invariant forall j :: 0 <= j < i ==> dst[j] == ByteOr(before[j], src[j])
      invariant forall j :: i <= j < dst.Length ==> dst[j] == before[j]
    {
      dst[i] := ByteOr(dst[i], src[i]);
    }
  }

  /** `bitxor_assign`: `*dst ^= *src` over the zipped octets. */
  method XorAssign(dst: array<u8>, src: HwAddress)
    requires dst.Length == |src|
    modifies dst
    ensures dst[..] == BytesXor(old(dst[..]), src)
  {
    ghost var before := dst[..];
    for i := 0 to dst.Length
      invariant forall j :: 0 <= j < i ==> dst[j] == ByteXor(before[j], src[j])
      invariant forall j :: i <= j < dst.Length ==> dst[j] == before[j]
    {
      dst[i] := ByteXor(dst[i], src[i]);
    }
  }

  /** `bitand`: a copy of `a`, then `&= b`. */
  method BitAnd(a: HwAddress, b: HwAddress) returns (r: HwAddress)
    requires |a| == |b|
    ensures r == BytesAnd(a, b)
  {
    var addr := new u8[|a|](i requires 0 <= i < |a| => a[i]);
    assert addr[..] == a;
    AndAssign(addr, b);
    r := addr[..];
  }

  /** `bitor` as written: a copy of `a`, then `&= b`. */
  method BitOr(a: HwAddress, b: HwAddress) returns (r: HwAddress)
    requires |a| == |b|
    ensures r == BytesAnd(a, b)
  {
    var addr := new u8[|a|](i requires 0 <= i < |a| => a[i]);
    assert addr[..] == a;
    AndAssign(addr, b);
    r := addr[..];
  }

  /** `bitxor` as written: a copy of `a`, then `&= b`. */
  method BitXor(a: HwAddress, b: HwAddress) returns (r: HwAddress)
    requires |a| == |b|
    ensures r == BytesAnd(a, b)
  {
    var addr := new u8[|a|](i requires 0 <= i < |a| => a[i]);
    assert addr[..] == a;
    AndAssign(addr, b);
    r := addr[..];
  }

  /** `bitor` as evidently intended: a copy of `a`, then `|= b`. */
  method BitOrCorrected(a: HwAddress, b: HwAddress) returns (r: HwAddress)
    requires |a| == |b|
    ensures r == BytesOr(a, b)
  {
    var addr := new u8[|a|](i requires 0 <= i < |a| => a[i]);
    assert addr[..] == a;
    OrAssign(addr, b);
    r := addr[..];
  }

  /** `bitxor` as evidently intended: a copy of `a`, then `^= b`. */
  method BitXorCorrected(a: HwAddress, b: HwAddress) returns (r: HwAddress)
    requires |a| == |b|
    ensures r == BytesXor(a, b)
  {
    var addr := new u8[|a|](i requires 0 <= i < |a| => a[i]);
    assert addr[..] == a;
    XorAssign(addr, b);
    r := addr[..];
  }

  /** `not`: every octet complemented in place on a copy. */
  method BitNot(a: HwAddress) returns (r: HwAddress)
    ensures r == BytesNot(a)
  {
    var addr := new u8[|a|](i requires 0 <= i < |a| => a[i]);
    for i := 0 to |a|
      invariant forall j :: 0 <= j < i ==> addr[j] == 0xff - a[j]
      invariant forall j :: i <= j < |a| ==> addr[j] == a[j]
    {
      addr[i] := 0xff - addr[i];
    }
    r := addr[..];
  }

  /** `a | 00:..:00` with `bitor` as written clears every octet instead of giving `a`. */
  lemma BitOrAsWrittenClears(a: HwAddress)
    ensures BytesAnd(a, Fill(|a|, 0)) == Fill(|a|, 0)
  {
    forall i | 0 <= i < |a|
      ensures ByteAnd(a[i], 0) == 0
    {
      AndCommutes(a[i], 0, 8);
      AndZero(8);
    }
  }

  /** `ff | 00` is `00` as written. */
  lemma BitOrAsWrittenExample()
    ensures BytesAnd([0xff], [0x00]) == [0x00]
  {
    BitOrAsWrittenClears([0xff]);
  }

  /** Zero is the identity of the corrected `bitor`. */
  lemma BytesOrZero(a: HwAddress)
    ensures BytesOr(a, Fill(|a|, 0)) == a
  {
    Pow2Of8();
    forall i | 0 <= i < |a|
      ensures ByteOr(a[i], 0) == a[i]
    {
      OrZero(a[i], 8);
    }
  }

  /** `a ^ a` with `bitxor` as written gives `a` back instead of zero. */
  lemma BitXorAsWrittenSelf(a: HwAddress)
    ensures BytesAnd(a, a) == a
  {
    Pow2Of8();
    forall i | 0 <= i < |a|
      ensures ByteAnd(a[i], a[i]) == a[i]
    {
      AndSelf(a[i], 8);
      ModBelow(a[i], 256);
    }
  }

  /** The corrected `bitxor` undoes itself: `(a ^ b) ^ b == a`, so `a ^ a` is zero. */
  lemma BytesXorInvolution(a: HwAddress, b: HwAddress)
    requires |a| == |b|
    ensures BytesXor(BytesXor(a, b), b) == a
    ensures BytesXor(a, a) == Fill(|a|, 0)
  {
    Pow2Of8();
    forall i | 0 <= i < |a|
      ensures ByteXor(ByteXor(a[i], b[i]), b[i]) == a[i] && ByteXor(a[i], a[i]) == 0
    {
      XorInvolution(a[i], b[i], 8);
      ModBelow(a[i], 256);
      XorSelf(a[i], 8);
    }
  }

  /** The complement of the octets is the complement of the big-endian value. */
  lemma {:induction false} BytesNotValue(a: HwAddress)
    ensures BeValue(BytesNot(a)) + BeValue(a) == Pow2(8 * |a|) - 1
  {
    if a != [] {
      var init := a[..|a| - 1];
      var n := BytesNot(a);
      BytesNotValue(init);
      assert n[..|a| - 1] == BytesNot(init);
      assert BeValue(n) == BeValue(BytesNot(init)) * 256 + (0xff - a[|a| - 1]);
      assert BeValue(a) == BeValue(init) * 256 + a[|a| - 1];
      var P := Pow2(8 * |init|);
      Pow2Add(8 * |init|, 8);
      Pow2Of8();
      assert Pow2(8 * |a|) == P * 256;
    }
  }

  /** Complementing twice gives the address back. */
  lemma BytesNotInvolution(a: HwAddress)
    ensures BytesNot(BytesNot(a)) == a
  {
  }

  // ---------------------------------------------------------------------
  // Display
  // ---------------------------------------------------------------------

  /** `{:02x}` of every octet. */
  function HexBytes(a: HwAddress): (hs: seq<string>)
    ensures |hs| == |a|
  {
    seq(|a|, i requires 0 <= i < |a| => Text.FormatHex2(a[i]))
  }

  /** `impl Display for HwAddress`. */
  method Display(a: HwAddress) returns (out: string)
    ensures out == Text.Join(HexBytes(a), ':')
  {
    out := "";
    var first := true;
    for i := 0 to |a|
      invariant first <==> i == 0
      invariant out == Text.Join(HexBytes(a[..i]), ':')
    {
      assert HexBytes(a[..i + 1]) == HexBytes(a[..i]) + [Text.FormatHex2(a[i])];
      if first {
        first := false;
        out := out + Text.FormatHex2(a[i]);
      } else {
        Text.JoinSnoc(HexBytes(a[..i]), Text.FormatHex2(a[i]), ':');
        out := out + ":" + Text.FormatHex2(a[i]);
      }
    }
    assert a[..|a|] == a;
  }
}
