/**
 * `Ipv6Address`: sixteen octets with the 128-bit big-endian value behind
 * masks and successors, the IPv4-mapped conversion, and `Display`, which
 * prints eight hexadecimal words and replaces the first longest run of zero
 * words with "::".
 */
module Ipv6Addr {
  import opened Bits
  import Address
  import Text
  import Ipv4Addr

  type Ipv6Address = s: seq<u8> | |s| == 16 witness seq(16, _ => 0)

  function Value(a: Ipv6Address): (v: nat)
    ensures v < Pow2(128)
  {
    BeValueBound(a);
    BeValue(a)
  }

  function FromValue(v: nat): Ipv6Address
  {
    BeBytes(v, 16)
  }

  lemma ValueRoundTrip(a: Ipv6Address, v: nat)
    requires v < Pow2(128)
    ensures FromValue(Value(a)) == a
    ensures Value(FromValue(v)) == v
  {
    BeBytesOfValue(a);
    BeValueOfBytes(v, 16);
  }

  /** `from_prefix_len` as written: `!0u128` for 128 and above, else `!(!0u128 >> p)`. */
  function FromPrefixLen(p: nat): Ipv6Address
  {
    FromValue(if p >= 128 then LowOnes(128) else Not(Shr(LowOnes(128), p), 128))
  }

  function AsPrefixLen(a: Ipv6Address): nat
  {
    Address.LeadingOnes(Value(a), 128)
  }

  function NextAddr(a: Ipv6Address): Ipv6Address
  {
    FromValue(Address.NextAddr(128, Value(a)))
  }

  function PrevAddr(a: Ipv6Address): Ipv6Address
  {
    FromValue(Address.PrevAddr(128, Value(a)))
  }

  lemma FromPrefixLenIsMask(p: nat)
    ensures Value(FromPrefixLen(p)) == Address.PrefixMask(128, p)
  {
    Address.ShiftComplementIsMask(128, p);
    ValueRoundTrip(FromPrefixLen(p), Address.PrefixMask(128, p));
  }

  /** `as_prefix_len(from_prefix_len(p)) == min(p, 128)`. */
  lemma PrefixLenRoundTrip(p: nat)
    ensures AsPrefixLen(FromPrefixLen(p)) == Address.Min(p, 128)
  {
    FromPrefixLenIsMask(p);
    Address.LeadingOnesOfMask(128, p);
  }

  lemma NextPrevInverse(a: Ipv6Address)
    ensures PrevAddr(NextAddr(a)) == a && NextAddr(PrevAddr(a)) == a
  {
    var v := Value(a);
    Address.NextPrevInverse(128, v);
    ValueRoundTrip(a, Address.NextAddr(128, v));
    ValueRoundTrip(a, Address.PrevAddr(128, v));
  }

  // ---------------------------------------------------------------------
  // From<Ipv4Address>
  // ---------------------------------------------------------------------

  /** The IPv4-mapped address `::ffff:a.b.c.d`. */
  function FromIpv4(v4: Ipv4Addr.Ipv4Address): Ipv6Address
  {
    [0, 0, 0, 0, 0, 0, 0, 0, 0, 0, 0xff, 0xff] + v4
  }

  /** The subnet `::ffff:0:0/96` of IPv4-mapped addresses. */
  const MappedSubnet: Address.Subnet := Address.Subnet(0xFFFF * 0x1_0000_0000, 96)

  /**
   * The mapped address carries the IPv4 address as its low 32 bits below
   * 0xffff, so it lies in `::ffff:0:0/96`, and the IPv4 address is recovered
   * from its last four octets.
   */
  lemma FromIpv4Mapped(v4: Ipv4Addr.Ipv4Address)
    ensures Value(FromIpv4(v4)) == 0xFFFF * 0x1_0000_0000 + Ipv4Addr.Value(v4)
    ensures Address.ContainsAddr(128, MappedSubnet, Value(FromIpv4(v4)))
    ensures FromIpv4(v4)[12..] == v4
  {
    MappedValue(v4);
    Pow2Of32();
    MappedInSubnet(Value(FromIpv4(v4)));
  }

  lemma MappedValue(v4: Ipv4Addr.Ipv4Address)
    ensures Value(FromIpv4(v4)) == 0xFFFF * 0x1_0000_0000 + Ipv4Addr.Value(v4)
  {
    var head: seq<u8> := [0, 0, 0, 0, 0, 0, 0, 0, 0, 0, 0xff, 0xff];
    assert head == head[..10] + [0xff, 0xff];
    ZeroPrefixBe(head[..10], [0xff, 0xff]);
    BeValue2([0xff, 0xff]);
    BeValueAppend(head, v4);
    Pow2Of32();
  }

  /** `::ffff:0:0/96` holds exactly the 2^32 values from 0xffff * 2^32 on. */
  lemma MappedInSubnet(v: nat)
    requires v < Pow2(128) && 0xFFFF * 0x1_0000_0000 <= v < 0x1_0000 * 0x1_0000_0000
    ensures Address.ContainsAddr(128, MappedSubnet, v)
  {
    assert MappedSubnet.base < Pow2(128);
    assert Address.HostBits(128, MappedSubnet) == 32;
    Pow2Of32();
    Address.BaseAddrValue(128, MappedSubnet);
    DivModUnique(MappedSubnet.base, Pow2(32), 0xFFFF, 0);
    Address.LastValue(128, MappedSubnet);
    Address.ContainsAddrIsRange(128, MappedSubnet, v);
  }

  // ---------------------------------------------------------------------
  // Display
  // ---------------------------------------------------------------------

  /** The eight `u16::from_be_bytes` words. */
  function Words(a: Ipv6Address): (ws: seq<nat>)
    ensures |ws| == 8 && forall i :: 0 <= i < 8 ==> ws[i] < 0x1_0000
  {
    seq(8, i requires 0 <= i < 8 => a[2 * i] as int * 0x100 + a[2 * i + 1] as int)
  }

  /** `{:x}` of a word. */
  function Hex(w: nat): string
  {
    Text.Format(w, 16)
  }

  function HexWords(ws: seq<nat>): (hs: seq<string>)
    ensures |hs| == |ws|
  {
    seq(|ws|, i requires 0 <= i < |ws| => Hex(ws[i]))
  }

  /** Each word followed by ':' (the words before the run). */
  function Suffixed(ws: seq<nat>): string
  {
    if ws == [] then "" else Suffixed(ws[..|ws| - 1]) + Hex(ws[|ws| - 1]) + ":"
  }

  /** Each word preceded by ':' (the words after the run). */
  function Prefixed(ws: seq<nat>): string
  {
    if ws == [] then "" else Prefixed(ws[..|ws| - 1]) + ":" + Hex(ws[|ws| - 1])
  }

  /** The output for the zero run `start..end` (none when they are equal). */
  function Render(ws: seq<nat>, start: nat, end: nat): string
    requires start <= end <= |ws|
  {
    if start == end then Text.Join(HexWords(ws), ':')
    else if start == 0 then (if end == |ws| then "::" else ":" + Prefixed(ws[end..]))
    else if end == |ws| then Suffixed(ws[..start]) + ":"
    else Suffixed(ws[..start]) + Prefixed(ws[end..])
  }

  /** The loop state: the best run so far and the run being extended. */
  datatype RunScan = RunScan(start: nat, end: nat, tmpStart: nat, tmpEnd: nat)

  /** One word of the scan in `fmt`: a zero extends the current run, anything else closes it. */
  function ScanStep(st: RunScan, n: nat, word: nat): RunScan
  {
    if word == 0 then st.(tmpEnd := n + 1)
    else if st.tmpEnd - st.tmpStart > st.end - st.start then RunScan(st.tmpStart, st.tmpEnd, n + 1, n + 1)
    else st.(tmpStart := n + 1, tmpEnd := n + 1)
  }

  function ScanWords(ws: seq<nat>, n: nat): RunScan
    requires n <= |ws|
  {
    if n == 0 then RunScan(0, 0, 0, 0) else ScanStep(ScanWords(ws, n - 1), n - 1, ws[n - 1])
  }

  /** The run the scan settles on, after the last comparison following the loop. */
  function ZeroRun(ws: seq<nat>): (nat, nat)
  {
    var st := ScanWords(ws, |ws|);
    if st.tmpEnd - st.tmpStart > st.end - st.start then (st.tmpStart, st.tmpEnd) else (st.start, st.end)
  }

  predicate AllZero(ws: seq<nat>, s: nat, e: nat)
    requires s <= e <= |ws|
  {
    forall i :: s <= i < e ==> ws[i] == 0
  }

  /**
   * `start..end` is a run of zero words, no zero run is longer, and among
   * the longest it comes first.
   */
  predicate FirstLongestZeroRun(ws: seq<nat>, start: nat, end: nat)
  {
    start <= end <= |ws| && AllZero(ws, start, end) &&
    forall s: nat, e: nat :: s < e <= |ws| && AllZero(ws, s, e) ==>
      e - s < end - start || (e - s == end - start && start <= s)
  }

  /** What the scan knows after `n` words. */
  predicate ScanInvariant(ws: seq<nat>, n: nat, st: RunScan)
    requires n <= |ws|
  {
    st.start <= st.end <= st.tmpStart <= st.tmpEnd == n &&
    AllZero(ws, st.start, st.end) && AllZero(ws, st.tmpStart, n) &&
    (st.tmpStart > 0 ==> ws[st.tmpStart - 1] != 0) &&
    forall s: nat, e: nat :: s < e <= st.tmpStart && AllZero(ws, s, e) ==>
      e - s < st.end - st.start || (e - s == st.end - st.start && st.start <= s)
  }

  lemma {:induction false} ScanKeepsInvariant(ws: seq<nat>, n: nat)
    requires n <= |ws|
    ensures ScanInvariant(ws, n, ScanWords(ws, n))
  {
    if n > 0 {
      ScanKeepsInvariant(ws, n - 1);
      var st := ScanWords(ws, n - 1);
      var st' := ScanWords(ws, n);
      var k := n - 1;
      if ws[k] != 0 {
        forall s: nat, e: nat | s < e <= st'.tmpStart && AllZero(ws, s, e)
          ensures e - s < st'.end - st'.start || (e - s == st'.end - st'.start && st'.start <= s)
        {
          assert !(s <= k < e);
          assert !(s < st.tmpStart < e);
        }
      }
    }
  }

  /** The scan in `fmt` finds the first longest run of zero words. */
  lemma ZeroRunIsFirstLongest(ws: seq<nat>)
    ensures FirstLongestZeroRun(ws, ZeroRun(ws).0, ZeroRun(ws).1)
  {
    ScanKeepsInvariant(ws, |ws|);
    var st := ScanWords(ws, |ws|);
    var (start, end) := ZeroRun(ws);
    forall s: nat, e: nat | s < e <= |ws| && AllZero(ws, s, e)
      ensures e - s < end - start || (e - s == end - start && start <= s)
    {
      assert !(s < st.tmpStart < e);
    }
  }

  /** `Display` as a function of the address. */
  function DisplayText(a: Ipv6Address): string
  {
    ZeroRunIsFirstLongest(Words(a));
    Render(Words(a), ZeroRun(Words(a)).0, ZeroRun(Words(a)).1)
  }

  /** The scan loop of `fmt`, followed by its final comparison. */
  method FindZeroRun(disp: seq<nat>) returns (start: nat, end: nat)
    ensures (start, end) == ZeroRun(disp)
  {
    start, end := 0, 0;
    var tmpStart, tmpEnd := 0, 0;
    for n := 0 to |disp|
      invariant RunScan(start, end, tmpStart, tmpEnd) == ScanWords(disp, n)
    {
      if disp[n] == 0 {
        tmpEnd := n + 1;
      } else if tmpEnd - tmpStart > end - start {
        start, end := tmpStart, tmpEnd;
        tmpStart, tmpEnd := n + 1, n + 1;
      } else {
        tmpStart, tmpEnd := n + 1, n + 1;
      }
    }
    if tmpEnd - tmpStart > end - start {
      start, end := tmpStart, tmpEnd;
    }
  }

  /** The `write!(f, "{:x}:", word)` loop over the words before the run. */
  method WriteSuffixed(ws: seq<nat>) returns (out: string)
    ensures out == Suffixed(ws)
  {
    out := "";
    for i := 0 to |ws|
      invariant out == Suffixed(ws[..i])
    {
      assert ws[..i + 1][..i] == ws[..i];
      out := out + Hex(ws[i]) + ":";
    }
    assert ws[..|ws|] == ws;
  }

  /** The `write!(f, ":{:x}", word)` loop over the words after the run. */
  method WritePrefixed(ws: seq<nat>) returns (out: string)
    ensures out == Prefixed(ws)
  {
    out := "";
    for i := 0 to |ws|
      invariant out == Prefixed(ws[..i])
    {
      assert ws[..i + 1][..i] == ws[..i];
      out := out + ":" + Hex(ws[i]);
    }
    assert ws[..|ws|] == ws;
  }

  /** `impl Display for Ipv6Address`. */
  method Display(a: Ipv6Address) returns (out: string)
    ensures out == DisplayText(a)
  {
    var disp := Words(a);
    var start, end := FindZeroRun(disp);
    ZeroRunIsFirstLongest(disp);
    if start == end {
      out := Text.Join(HexWords(disp), ':');
    } else if start == 0 {
      if end == 8 {
        out := "::";
      } else {
        var tail := WritePrefixed(disp[end..]);
        out := ":" + tail;
      }
    } else {
      var head := WriteSuffixed(disp[..start]);
      if end == 8 {
        out := head + ":";
      } else {
        var tail := WritePrefixed(disp[end..]);
        out := head + tail;
      }
    }
  }

  /** `::` for the unspecified address. */
  lemma DisplayUnspecified()
    ensures DisplayText([0, 0, 0, 0, 0, 0, 0, 0, 0, 0, 0, 0, 0, 0, 0, 0]) == "::"
  {
    var ws: seq<nat> := [0, 0, 0, 0, 0, 0, 0, 0];
    assert Words([0, 0, 0, 0, 0, 0, 0, 0, 0, 0, 0, 0, 0, 0, 0, 0]) == ws;
    assert ScanWords(ws, 4) == RunScan(0, 0, 0, 4);
    assert ScanWords(ws, 8) == RunScan(0, 0, 0, 8);
  }

  /** `1::`: a trailing run of seven zero words. */
  lemma DisplayOneFirst()
    ensures DisplayText([0, 1, 0, 0, 0, 0, 0, 0, 0, 0, 0, 0, 0, 0, 0, 0]) == "1::"
  {
    assert Hex(1) == "1";
    var w1: seq<nat> := [1, 0, 0, 0, 0, 0, 0, 0];
    assert Words([0, 1, 0, 0, 0, 0, 0, 0, 0, 0, 0, 0, 0, 0, 0, 0]) == w1;
    assert ScanWords(w1, 4) == RunScan(0, 0, 1, 4);
    assert ScanWords(w1, 8) == RunScan(0, 0, 1, 8);
    assert w1[..1] == [1];
    assert Suffixed([1]) == "1:";
  }

  /** `::1`: a leading run of seven zero words. */
  lemma DisplayOneLast()
    ensures DisplayText([0, 0, 0, 0, 0, 0, 0, 0, 0, 0, 0, 0, 0, 0, 0, 1]) == "::1"
  {
    assert Hex(1) == "1";
    var w2: seq<nat> := [0, 0, 0, 0, 0, 0, 0, 1];
    assert Words([0, 0, 0, 0, 0, 0, 0, 0, 0, 0, 0, 0, 0, 0, 0, 1]) == w2;
    assert ScanWords(w2, 4) == RunScan(0, 0, 0, 4);
    assert ScanWords(w2, 8) == RunScan(0, 7, 8, 8);
    assert w2[7..] == [1];
    assert Prefixed([1]) == ":1";
  }

  /** `1:1::1:1`: a run in the middle. */
  lemma DisplayMiddle()
    ensures DisplayText([0, 1, 0, 1, 0, 0, 0, 0, 0, 0, 0, 0, 0, 1, 0, 1]) == "1:1::1:1"
  {
    var ws: seq<nat> := [1, 1, 0, 0, 0, 0, 1, 1];
    MiddleWords();
    OnesAroundRun();
    assert ws[..2] == [1, 1] && ws[6..] == [1, 1];
  }

  /** The words of `1:1::1:1` and the run the scan finds in them. */
  lemma MiddleWords()
    ensures Words([0, 1, 0, 1, 0, 0, 0, 0, 0, 0, 0, 0, 0, 1, 0, 1]) == [1, 1, 0, 0, 0, 0, 1, 1]
    ensures ZeroRun([1, 1, 0, 0, 0, 0, 1, 1]) == (2, 6)
  {
    var ws: seq<nat> := [1, 1, 0, 0, 0, 0, 1, 1];
    assert ScanWords(ws, 4) == RunScan(0, 0, 2, 4);
    assert ScanWords(ws, 8) == RunScan(2, 6, 8, 8);
  }

  lemma OnesAroundRun()
    ensures Suffixed([1, 1]) == "1:1:" && Prefixed([1, 1]) == ":1:1"
  {
    assert Hex(1) == "1";
    assert [1, 1][..1] == [1];
  }

  // ---------------------------------------------------------------------
  // Section 4.2.2 of RFC 5952: "::" must not stand for a single 16-bit
  // zero field. `fmt` compresses any run, even one of length one.
  // ---------------------------------------------------------------------

  /** The words of `1:0:1:1:1:1:1:1` and the run the scan finds in them. */
  lemma SingleZeroWords()
    ensures Words([0, 1, 0, 0, 0, 1, 0, 1, 0, 1, 0, 1, 0, 1, 0, 1]) == [1, 0, 1, 1, 1, 1, 1, 1]
    ensures ZeroRun([1, 0, 1, 1, 1, 1, 1, 1]) == (1, 2)
  {
    var ws: seq<nat> := [1, 0, 1, 1, 1, 1, 1, 1];
    assert ScanWords(ws, 4) == RunScan(1, 2, 4, 4);
    assert ScanWords(ws, 8) == RunScan(1, 2, 8, 8);
  }

  lemma PrefixedOnes()
    ensures Prefixed([1, 1, 1, 1, 1, 1]) == ":1:1:1:1:1:1"
  {
    assert Hex(1) == "1";
    assert Prefixed([1]) == ":1";
    assert [1, 1][..1] == [1];
    assert Prefixed([1, 1]) == ":1:1";
    assert [1, 1, 1][..2] == [1, 1];
    assert Prefixed([1, 1, 1]) == ":1:1:1";
    assert [1, 1, 1, 1][..3] == [1, 1, 1];
    assert Prefixed([1, 1, 1, 1]) == ":1:1:1:1";
    assert [1, 1, 1, 1, 1][..4] == [1, 1, 1, 1];
    assert Prefixed([1, 1, 1, 1, 1]) == ":1:1:1:1:1";
    assert [1, 1, 1, 1, 1, 1][..5] == [1, 1, 1, 1, 1];
  }

  /** `1:0:1:1:1:1:1:1` is printed with its lone zero word compressed. */
  lemma DisplayCompressesSingleZero()
    ensures DisplayText([0, 1, 0, 0, 0, 1, 0, 1, 0, 1, 0, 1, 0, 1, 0, 1]) == "1::1:1:1:1:1:1"
  {
    SingleZeroWords();
    PrefixedOnes();
    var ws: seq<nat> := [1, 0, 1, 1, 1, 1, 1, 1];
    assert ws[..1] == [1] && ws[2..] == [1, 1, 1, 1, 1, 1];
    assert Hex(1) == "1";
  }

  /** The zero run to compress: the first longest one, if it has two words or more. */
  function RfcZeroRun(ws: seq<nat>): (nat, nat)
  {
    var (start, end) := ZeroRun(ws);
    if end - start >= 2 then (start, end) else (0, 0)
  }

  /**
   * The compressed run is the first longest run of zero words and has at
   * least two words; when nothing is compressed, no two neighbouring words
   * are both zero.
   */
  lemma RfcZeroRunMeaning(ws: seq<nat>)
    ensures var (start, end) := RfcZeroRun(ws);
      (start == end && forall i :: 0 <= i < |ws| - 1 ==> !(ws[i] == 0 && ws[i + 1] == 0)) ||
      (end - start >= 2 && FirstLongestZeroRun(ws, start, end))
  {
    ZeroRunIsFirstLongest(ws);
    var (start, end) := ZeroRun(ws);
    if end - start < 2 {
      forall i | 0 <= i < |ws| - 1
        ensures !(ws[i] == 0 && ws[i + 1] == 0)
      {
        if ws[i] == 0 && ws[i + 1] == 0 {
          assert AllZero(ws, i, i + 2);
        }
      }
    }
  }

  /** `Display` with RFC 5952 compression. */
  function DisplayTextRfc(a: Ipv6Address): string
  {
    var ws := Words(a);
    ZeroRunIsFirstLongest(ws);
    Render(ws, RfcZeroRun(ws).0, RfcZeroRun(ws).1)
  }

  lemma JoinSingleZero()
    ensures Text.Join(["1", "0", "1", "1", "1", "1", "1", "1"], ':') == "1:0:1:1:1:1:1:1"
  {
    JoinSixOnes();
    JoinFront("0", ["1", "1", "1", "1", "1", "1"], "1:1:1:1:1:1", "0:1:1:1:1:1:1");
    JoinFront("1", ["0", "1", "1", "1", "1", "1", "1"], "0:1:1:1:1:1:1", "1:0:1:1:1:1:1:1");
  }

  lemma JoinSixOnes()
    ensures Text.Join(["1", "1", "1", "1", "1", "1"], ':') == "1:1:1:1:1:1"
  {
    JoinFront("1", ["1"], "1", "1:1");
    JoinFront("1", ["1", "1"], "1:1", "1:1:1");
    JoinFront("1", ["1", "1", "1"], "1:1:1", "1:1:1:1");
    JoinFront("1", ["1", "1", "1", "1"], "1:1:1:1", "1:1:1:1:1");
    JoinFront("1", ["1", "1", "1", "1", "1"], "1:1:1:1:1", "1:1:1:1:1:1");
  }

  /** One more part in front of a joined text. */
  lemma JoinFront(p: string, rest: seq<string>, joined: string, r: string)
    requires |rest| >= 1 && Text.Join(rest, ':') == joined && r == p + ":" + joined
    ensures Text.Join([p] + rest, ':') == r
  {
    assert ([p] + rest)[1..] == rest;
  }

  /** With RFC 5952 compression the lone zero word is printed as `0`. */
  lemma DisplayRfcKeepsSingleZero()
    ensures DisplayTextRfc([0, 1, 0, 0, 0, 1, 0, 1, 0, 1, 0, 1, 0, 1, 0, 1]) == "1:0:1:1:1:1:1:1"
  {
    SingleZeroWords();
    JoinSingleZero();
    assert Hex(1) == "1" && Hex(0) == "0";
    assert HexWords([1, 0, 1, 1, 1, 1, 1, 1]) == ["1", "0", "1", "1", "1", "1", "1", "1"];
  }
}
