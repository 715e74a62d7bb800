/**
 * Dissecting an IPv4 header (`Dissect for IPv4`): the fixed twenty octets,
 * the options region whose size `ihl` gives, and the split of what follows
 * into the payload and the remainder by `totlen`. The dissector for a single
 * option is a parameter; the dissection of the payload by the protocol
 * tables is not part of this module.
 */
module Ipv4Dissect {
  import opened Bits
  import opened Wrappers
  import BitPack
  import C = Ipv4Codes
  import O = Ipv4Opts
  import H = Ipv4Hdr
  import D = Decode
  import opened Dissection

  // ---------------------------------------------------------------------
  // The option loop
  // ---------------------------------------------------------------------

  /**
   * `fold_many0` over a closure that refuses (with an `Error`) once an
   * end-of-options-list option has been read. A refusal from the closure or
   * from the option dissector ends the list and leaves the rest unread; a
   * `Failure` or an `Incomplete` fails the whole dissection; a step that
   * consumes nothing is refused by `fold_many0` itself.
   */
  function WalkOptions(buf: seq<u8>, done: bool, d: Dissector<O.Opt>): (r: DResult<seq<O.Opt>>)
    ensures r.Error? ==> r.err == D.Malformed
    ensures r.Parsed? ==> |r.rest| <= |buf|
    ensures r.Parsed? && done ==> r == Parsed(buf, [])
    ensures r.Parsed? ==> forall i :: 0 <= i < |r.value| - 1 ==> O.OptionTypeOf(r.value[i]) != C.Eool
    decreases |buf|
  {
    if done then Parsed(buf, [])
    else match d(buf)
      case Error(_) => Parsed(buf, [])
      case Failure(e) => Failure(e)
      case Incomplete(n) => Incomplete(n)
      case Parsed(rest, opt) =>
        if |rest| >= |buf| then Error(D.Malformed)
        else match WalkOptions(rest, O.OptionTypeOf(opt) == C.Eool, d)
          case Parsed(after, more) => Parsed(after, [opt] + more)
          case Error(e) => Error(e)
          case Failure(e) => Failure(e)
          case Incomplete(n) => Incomplete(n)
  }

  /** The option dissector reads back each of these options from what `Opt::serialize` writes, whatever follows. */
  ghost predicate ReadsBack(d: Dissector<O.Opt>, opts: seq<O.Opt>)
  {
    forall i, t :: 0 <= i < |opts| ==> d(O.Serialize(opts[i]) + t) == Parsed(t, opts[i])
  }

  /** What the option dissector parses, followed by what it leaves, is what it was given. */
  ghost predicate WritesBack(d: Dissector<O.Opt>)
  {
    forall b :: d(b).Parsed? ==> O.Serialize(d(b).value) + d(b).rest == b
  }

  /** A list of options closed by its only end-of-options-list option. */
  predicate EndsWithEool(opts: seq<O.Opt>)
  {
    |opts| > 0 && O.OptionTypeOf(opts[|opts| - 1]) == C.Eool &&
    forall i :: 0 <= i < |opts| - 1 ==> O.OptionTypeOf(opts[i]) != C.Eool
  }

  /** Serialized options closed by an end-of-options-list are read back, and whatever follows is left. */
  lemma {:induction false} WalkReadsBack(opts: seq<O.Opt>, pad: seq<u8>, d: Dissector<O.Opt>)
    requires ReadsBack(d, opts) && EndsWithEool(opts)
    ensures WalkOptions(H.OptionsBytes(opts) + pad, false, d) == Parsed(pad, opts)
    decreases |opts|
  {
    var tail := H.OptionsBytes(opts[1..]) + pad;
    assert d(O.Serialize(opts[0]) + tail) == Parsed(tail, opts[0]);
    ReadsFirst(d, opts, pad);
    if |opts| == 1 {
      assert tail == pad;
    } else {
      ReadsBackTail(d, opts);
      EndsWithEoolTail(opts);
      WalkReadsBack(opts[1..], pad, d);
    }
    WalkStep(H.OptionsBytes(opts) + pad, tail, opts, pad, d);
  }

  /** The dissector reads the first serialized option and leaves the rest. */
  lemma ReadsFirst(d: Dissector<O.Opt>, opts: seq<O.Opt>, pad: seq<u8>)
    requires |opts| >= 1
    requires d(O.Serialize(opts[0]) + (H.OptionsBytes(opts[1..]) + pad)) == Parsed(H.OptionsBytes(opts[1..]) + pad, opts[0])
    ensures d(H.OptionsBytes(opts) + pad) == Parsed(H.OptionsBytes(opts[1..]) + pad, opts[0])
    ensures |H.OptionsBytes(opts[1..]) + pad| < |H.OptionsBytes(opts) + pad|
  {
    var first := O.Serialize(opts[0]);
    var rest := H.OptionsBytes(opts[1..]);
    assert H.OptionsBytes(opts) == first + rest;
    ReadsPrefix(d, first, rest, pad, H.OptionsBytes(opts), opts[0]);
  }

  /** A dissector's result on bytes that are equal as sequences, however they were put together. */
  lemma ReadsPrefix(d: Dissector<O.Opt>, first: seq<u8>, rest: seq<u8>, pad: seq<u8>, whole: seq<u8>, o: O.Opt)
    requires whole == first + rest && |first| >= 1
    requires d(first + (rest + pad)) == Parsed(rest + pad, o)
    ensures d(whole + pad) == Parsed(rest + pad, o)
    ensures |rest + pad| < |whole + pad|
  {
    assert whole + pad == first + (rest + pad);
  }

  /** One turn of the loop: an option read from `buf`, then the rest of the walk from what it left. */
  lemma WalkStep(buf: seq<u8>, tail: seq<u8>, opts: seq<O.Opt>, after: seq<u8>, d: Dissector<O.Opt>)
    requires |opts| >= 1 && d(buf) == Parsed(tail, opts[0]) && |tail| < |buf|
    requires WalkOptions(tail, O.OptionTypeOf(opts[0]) == C.Eool, d) == Parsed(after, opts[1..])
    ensures WalkOptions(buf, false, d) == Parsed(after, opts)
  {
    assert [opts[0]] + opts[1..] == opts;
  }

  lemma ReadsBackTail(d: Dissector<O.Opt>, opts: seq<O.Opt>)
    requires |opts| >= 1 && ReadsBack(d, opts)
    ensures ReadsBack(d, opts[1..])
  {
    forall i, t | 0 <= i < |opts[1..]|
      ensures d(O.Serialize(opts[1..][i]) + t) == Parsed(t, opts[1..][i])
    {
      assert opts[1..][i] == opts[i + 1];
    }
  }

  lemma EndsWithEoolTail(opts: seq<O.Opt>)
    requires |opts| >= 2 && EndsWithEool(opts)
    ensures EndsWithEool(opts[1..])
  {
    forall i | 0 <= i < |opts[1..]| - 1
      ensures O.OptionTypeOf(opts[1..][i]) != C.Eool
    {
      assert opts[1..][i] == opts[i + 1];
    }
  }

  /** The options the loop reads, written out again, followed by what it left, are what it was given. */
  lemma {:induction false} WalkWritesBack(buf: seq<u8>, done: bool, d: Dissector<O.Opt>)
    requires WritesBack(d)
    ensures WalkOptions(buf, done, d).Parsed? ==>
      H.OptionsBytes(WalkOptions(buf, done, d).value) + WalkOptions(buf, done, d).rest == buf
    decreases |buf|
  {
    var r := WalkOptions(buf, done, d);
    if r.Parsed? && !done && d(buf).Parsed? {
      var rest, opt := d(buf).rest, d(buf).value;
      var done' := O.OptionTypeOf(opt) == C.Eool;
      WalkWritesBack(rest, done', d);
      var w := WalkOptions(rest, done', d);
      assert r == Parsed(w.rest, [opt] + w.value);
      WriteBackStep(buf, opt, rest, w.value, w.rest);
    }
  }

  /** One option written back in front of what the rest of the walk wrote back. */
  lemma WriteBackStep(buf: seq<u8>, opt: O.Opt, rest: seq<u8>, more: seq<O.Opt>, after: seq<u8>)
    requires O.Serialize(opt) + rest == buf && H.OptionsBytes(more) + after == rest
    ensures H.OptionsBytes([opt] + more) + after == buf
  {
    OptionsBytesCons(opt, more);
    Regroup(O.Serialize(opt), H.OptionsBytes(more), after, rest, buf);
  }

  lemma OptionsBytesCons(opt: O.Opt, more: seq<O.Opt>)
    ensures H.OptionsBytes([opt] + more) == O.Serialize(opt) + H.OptionsBytes(more)
  {
    assert ([opt] + more)[1..] == more;
  }

  lemma Regroup(x: seq<u8>, y: seq<u8>, z: seq<u8>, rest: seq<u8>, whole: seq<u8>)
    requires x + rest == whole && y + z == rest
    ensures x + y + z == whole
  {
  }

  // ---------------------------------------------------------------------
  // The options region
  // ---------------------------------------------------------------------

  datatype OptionsRegion = OptionsRegion(opts: seq<O.Opt>, padding: H.Padding)

  /**
   * The part of `dissect` after the fixed twenty octets: `ihl * 4` below 20
   * is malformed; fewer octets than the options region needs are
   * incomplete by the missing count; otherwise the options are read from
   * the region and what the loop leaves is the padding, automatic when it
   * is shorter than four octets (the region length is always a multiple of
   * four) and kept as it is otherwise.
   */
  function DissectOptions(ihl: C.u4, buf: seq<u8>, d: Dissector<O.Opt>): (r: DResult<OptionsRegion>)
    ensures 4 * ihl < 20 ==> r == Error(D.Malformed)
    ensures 4 * ihl >= 20 && |buf| < 4 * ihl - 20 ==> r == Incomplete(4 * ihl - 20 - |buf|)
    ensures r.Parsed? ==> 4 * ihl >= 20 && |buf| >= 4 * ihl - 20 && r.rest == buf[4 * ihl - 20..]
    ensures r.Parsed? && r.value.padding.Manual? ==> |r.value.padding.bytes| >= 4
    ensures r.Parsed? && ihl == 5 ==> r.value == OptionsRegion([], H.Auto)
  {
    var len := 4 * ihl;
    if len < 20 then Error(D.Malformed)
    else if |buf| < len - 20 then Incomplete(len - 20 - |buf|)
    else if len > 20 then
      match WalkOptions(buf[..len - 20], false, d)
      case Parsed(pad, opts) =>
        Parsed(buf[len - 20..], OptionsRegion(opts, if |pad| < 4 && len % 4 == 0 then H.Auto else H.Manual(pad)))
      case Error(e) => Error(e)
      case Failure(e) => Failure(e)
      case Incomplete(n) => Incomplete(n)
    else Parsed(buf, OptionsRegion([], H.Auto))
  }

  /** Dissected options never hold an end-of-options-list before the last one. */
  lemma DissectedEoolIsLast(ihl: C.u4, buf: seq<u8>, d: Dissector<O.Opt>)
    requires DissectOptions(ihl, buf, d).Parsed?
    ensures forall i :: 0 <= i < |DissectOptions(ihl, buf, d).value.opts| - 1 ==>
      O.OptionTypeOf(DissectOptions(ihl, buf, d).value.opts[i]) != C.Eool
  {
  }

  // ---------------------------------------------------------------------
  // The fixed twenty octets
  // ---------------------------------------------------------------------

  /** The header fields the fixed twenty octets hold, unpacked as `dissect` does; no options yet. */
  function FixedFields(b: seq<u8>): (h: H.Header)
    requires |b| >= 20
    ensures h.opts == [] && h.padding == H.Auto
    ensures h.src == b[12..16] && h.dst == b[16..20] && h.ttl == b[8] && h.proto == b[9]
  {
    H.SmallPow2();
    BeValue2(b[2..4]);
    BeValue2(b[4..6]);
    BeValue2(b[6..8]);
    BeValue2(b[10..12]);
    var (version, ihl) := BitPack.UnpackPair(b[0], 4, 4);
    var (dscp, ecn) := BitPack.UnpackPair(b[1], 6, 2);
    var (flags, fragOffset) := BitPack.UnpackPair(BeValue(b[6..8]), 3, 13);
    H.Header(version, ihl, dscp, ecn, BeValue(b[2..4]), BeValue(b[4..6]), flags, fragOffset,
      b[8], b[9], BeValue(b[10..12]), b[12..16], b[16..20], [], H.Auto)
  }

  lemma {:induction false} Be16RoundTrip(v: u16)
    ensures BeValue(BeBytes(v, 2)) == v
  {
    Pow2Values();
    BeValueOfBytes(v, 2);
  }

  /** Dissecting the fixed octets `serialize_header` writes gives back every fixed field. */
  lemma FixedFieldsOfBytes(h: H.Header)
    ensures FixedFields(H.FixedBytes(h)) == h.(opts := [], padding := H.Auto)
  {
    var b := H.FixedBytes(h);
    H.SmallPow2();
    var pre := H.FixedPre(h);
    assert b[..10] == pre;
    assert b[0] == pre[0] && b[1] == pre[1] && b[8] == pre[8] && b[9] == pre[9];
    assert b[2..4] == pre[2..4] == BeBytes(h.totlen, 2);
    assert b[4..6] == pre[4..6] == BeBytes(h.ident, 2);
    assert b[6..8] == pre[6..8] == BeBytes(BitPack.PackPair(h.flags, h.fragOffset, 3, 13), 2);
    assert b[10..12] == BeBytes(h.chksum, 2);
    assert b[12..16] == h.src && b[16..20] == h.dst;
    Be16RoundTrip(h.totlen);
    Be16RoundTrip(h.ident);
    Be16RoundTrip(h.chksum);
    BitPack.UnpackPackPair(h.version, h.ihl, 4, 4);
    BitPack.UnpackPackPair(h.dscp, h.ecn, 6, 2);
    BitPack.UnpackPackPair(h.flags, h.fragOffset, 3, 13);
    Be16RoundTrip(BitPack.PackPair(h.flags, h.fragOffset, 3, 13));
  }

  /** Packing the unpacked fields of the first ten octets gives them back. */
  lemma FixedPreOfFields(b: seq<u8>)
    requires |b| >= 20
    ensures H.FixedPre(FixedFields(b)) == b[..10]
  {
    var h := FixedFields(b);
    assert BitPack.PackPair(h.version, h.ihl, 4, 4) == b[0] by {
      Pow2Of8();
      BitPack.PackUnpackPair(b[0], 4, 4);
    }
    assert BitPack.PackPair(h.dscp, h.ecn, 6, 2) == b[1] by {
      Pow2Of8();
      BitPack.PackUnpackPair(b[1], 6, 2);
    }
    assert BeBytes(h.totlen, 2) == b[2..4] by {
      BeBytesOfValue(b[2..4]);
    }
    assert BeBytes(h.ident, 2) == b[4..6] by {
      BeBytesOfValue(b[4..6]);
    }
    assert BeBytes(BitPack.PackPair(h.flags, h.fragOffset, 3, 13), 2) == b[6..8] by {
      BeValueBound(b[6..8]);
      BitPack.PackUnpackPair(BeValue(b[6..8]), 3, 13);
      BeBytesOfValue(b[6..8]);
    }
    assert b[..10] == [b[0], b[1]] + b[2..4] + b[4..6] + b[6..8] + [b[8], b[9]];
  }

  /** Writing out the dissected fixed fields gives back the fixed twenty octets. */
  lemma FixedBytesOfFields(b: seq<u8>)
    requires |b| >= 20
    ensures H.FixedBytes(FixedFields(b)) == b[..20]
  {
    var h := FixedFields(b);
    FixedPreOfFields(b);
    BeBytesOfValue(b[10..12]);
    assert b[..12] == b[..10] + b[10..12];
    assert b[..16] == b[..12] + b[12..16];
    assert b[..20] == b[..16] + b[16..20];
  }

  /** The fixed fields depend on the first twenty octets only. */
  lemma FixedFieldsPrefix(b: seq<u8>, c: seq<u8>)
    requires |b| >= 20 && |c| >= 20 && b[..20] == c[..20]
    ensures FixedFields(b) == FixedFields(c)
  {
    assert b[2..4] == c[2..4] && b[4..6] == c[4..6] && b[6..8] == c[6..8];
    assert b[10..12] == c[10..12] && b[12..16] == c[12..16] && b[16..20] == c[16..20];
    assert b[0] == c[0] && b[1] == c[1] && b[8] == c[8] && b[9] == c[9];
  }

  // ---------------------------------------------------------------------
  // The whole header
  // ---------------------------------------------------------------------

  /**
   * The header part of `dissect`: twenty octets of fixed fields, then the
   * options region. Fewer than twenty octets is a truncation.
   */
  function DissectHeader(buf: seq<u8>, d: Dissector<O.Opt>): (r: DResult<H.Header>)
    ensures |buf| < 20 ==> r == Incomplete(20 - |buf|)
    ensures r.Parsed? ==> |buf| >= 20 && r.value.ihl >= 5 && |buf| >= 4 * r.value.ihl
    ensures r.Parsed? ==> r.rest == buf[4 * r.value.ihl..]
  {
    if |buf| < 20 then Incomplete(20 - |buf|)
    else
      var fixed := FixedFields(buf);
      match DissectOptions(fixed.ihl, buf[20..], d)
      case Parsed(rest, region) => Parsed(rest, fixed.(opts := region.opts, padding := region.padding))
      case Error(e) => Error(e)
      case Failure(e) => Failure(e)
      case Incomplete(n) => Incomplete(n)
  }

  /** The options region of a header that satisfies the round-trip conditions is read back into its options and padding. */
  lemma RegionRoundTrip(h: H.Header, tail: seq<u8>, d: Dissector<O.Opt>)
    requires H.SizedOptions(h.opts) && ReadsBack(d, h.opts)
    requires H.HeaderLen(h) == Some(4 * h.ihl)
    requires EndsWithEool(h.opts) || (h.opts == [] && h.ihl == 5)
    requires h.padding.Manual? ==> |h.padding.bytes| >= 4
    ensures DissectOptions(h.ihl, H.OptionsBytes(h.opts) + H.PaddingOf(h).value + tail, d) ==
      Parsed(tail, OptionsRegion(h.opts, h.padding))
  {
    var pad := H.PaddingOf(h).value;
    var region := H.OptionsBytes(h.opts) + pad;
    H.OptionsBytesLength(h.opts);
    assert |region| == 4 * h.ihl - 20;
    if h.ihl == 5 {
      assert h.padding == H.Auto;
      var buf := region + tail;
      assert buf[..0] == region && buf[0..] == tail;
    } else {
      WalkReadsBack(h.opts, pad, d);
      if h.padding.Auto? {
        assert |pad| < 4;
      }
      WalkedRegionReadsBack(h.ihl, region, tail, h.opts, h.padding, pad, d);
    }
  }

  /** A region the option walk reads completely is dissected into its options and padding. */
  lemma WalkedRegionReadsBack(ihl: C.u4, region: seq<u8>, tail: seq<u8>, opts: seq<O.Opt>,
                              padding: H.Padding, pad: seq<u8>, d: Dissector<O.Opt>)
    requires 4 * ihl > 20 && |region| == 4 * ihl - 20
    requires WalkOptions(region, false, d) == Parsed(pad, opts)
    requires padding == if |pad| < 4 then H.Auto else H.Manual(pad)
    ensures DissectOptions(ihl, region + tail, d) == Parsed(tail, OptionsRegion(opts, padding))
  {
    var buf := region + tail;
    assert buf[..4 * ihl - 20] == region && buf[4 * ihl - 20..] == tail;
  }

  /**
   * A header whose `ihl` states its serialized length, whose options close
   * with their only end-of-options-list (or are absent with `ihl` 5), whose
   * padding is automatic or at least four octets, and whose options the
   * option dissector reads back, is dissected from its own bytes into
   * itself, leaving whatever follows.
   */
  lemma HeaderRoundTrip(h: H.Header, tail: seq<u8>, d: Dissector<O.Opt>)
    requires H.SizedOptions(h.opts) && ReadsBack(d, h.opts)
    requires H.HeaderLen(h) == Some(4 * h.ihl)
    requires EndsWithEool(h.opts) || (h.opts == [] && h.ihl == 5)
    requires h.padding.Manual? ==> |h.padding.bytes| >= 4
    ensures H.HeaderBytes(h).Some?
    ensures DissectHeader(H.HeaderBytes(h).value + tail, d) == Parsed(tail, h)
  {
    var buf := H.HeaderBytes(h).value + tail;
    HeaderBytesThenTail(h, tail);
    RegionRoundTrip(h, tail, d);
    var fixed := FixedFields(buf);
    assert DissectOptions(fixed.ihl, buf[20..], d) == Parsed(tail, OptionsRegion(h.opts, h.padding));
    assert fixed.(opts := h.opts, padding := h.padding) == h;
  }

  /** The serialized header followed by anything: its fixed fields, then its options and padding. */
  lemma HeaderBytesThenTail(h: H.Header, tail: seq<u8>)
    requires H.PaddingOf(h).Some?
    ensures |H.HeaderBytes(h).value + tail| >= 20
    ensures FixedFields(H.HeaderBytes(h).value + tail) == h.(opts := [], padding := H.Auto)
    ensures (H.HeaderBytes(h).value + tail)[20..] == H.OptionsBytes(h.opts) + H.PaddingOf(h).value + tail
  {
    var b := H.HeaderBytes(h).value;
    H.HeaderBytesParts(h);
    AppendSlices(b, tail, 20);
    FixedOfHeaderBytes(h, b + tail);
  }

  lemma AppendSlices(b: seq<u8>, tail: seq<u8>, n: nat)
    requires n <= |b|
    ensures (b + tail)[..n] == b[..n] && (b + tail)[n..] == b[n..] + tail
  {
  }

  lemma FixedOfHeaderBytes(h: H.Header, buf: seq<u8>)
    requires |buf| >= 20 && buf[..20] == H.FixedBytes(h)
    ensures FixedFields(buf) == h.(opts := [], padding := H.Auto)
  {
    FixedFieldsOfBytes(h);
    assert H.FixedBytes(h)[..20] == H.FixedBytes(h);
    FixedFieldsPrefix(buf, H.FixedBytes(h));
  }

  /** The options region, written out again as the header would, is the region the dissector consumed. */
  lemma RegionWritesBack(h: H.Header, buf: seq<u8>, d: Dissector<O.Opt>)
    requires WritesBack(d)
    requires DissectOptions(h.ihl, buf, d).Parsed?
    requires DissectOptions(h.ihl, buf, d).value == OptionsRegion(h.opts, h.padding)
    requires H.SizedOptions(h.opts)
    requires forall i :: H.OptsLength(h.opts) <= i < 4 * h.ihl - 20 ==> buf[i] == 0
    ensures H.PaddingOf(h).Some?
    ensures H.OptionsBytes(h.opts) + H.PaddingOf(h).value == buf[..4 * h.ihl - 20]
  {
    if h.ihl == 5 {
      assert h.opts == [] && h.padding == H.Auto;
      assert H.OptsLength([]) == 0;
      assert H.AutoPaddingLen(h) == 0;
      assert H.OptionsBytes([]) == [];
    } else {
      var region := buf[..4 * h.ihl - 20];
      var w := WalkOptions(region, false, d);
      DivModUnique(4 * h.ihl, 4, h.ihl, 0);
      assert DissectOptions(h.ihl, buf, d) ==
        Parsed(buf[4 * h.ihl - 20..], OptionsRegion(w.value, if |w.rest| < 4 then H.Auto else H.Manual(w.rest)));
      assert w.Parsed? && w.value == h.opts;
      assert h.padding == (if |w.rest| < 4 then H.Auto else H.Manual(w.rest));
      assert forall i :: H.OptsLength(h.opts) <= i < |region| ==> region[i] == buf[i];
      WalkedRegionWritesBack(h, region, d);
    }
  }

  /** The options the loop read from a region, and the padding it left, are written out as that region. */
  lemma WalkedRegionWritesBack(h: H.Header, region: seq<u8>, d: Dissector<O.Opt>)
    requires WritesBack(d) && H.SizedOptions(h.opts) && |region| == 4 * h.ihl - 20
    requires WalkOptions(region, false, d).Parsed? && WalkOptions(region, false, d).value == h.opts
    requires h.padding == (if |WalkOptions(region, false, d).rest| < 4 then H.Auto else H.Manual(WalkOptions(region, false, d).rest))
    requires forall i :: H.OptsLength(h.opts) <= i < |region| ==> region[i] == 0
    ensures H.PaddingOf(h).Some? && H.OptionsBytes(h.opts) + H.PaddingOf(h).value == region
  {
    var w := WalkOptions(region, false, d);
    WalkWritesBack(region, false, d);
    PaddingWritesBack(h, region, w.rest);
  }

  /** The padding the loop left, kept or replaced by zeros of the automatic length, is written out as it was read. */
  lemma PaddingWritesBack(h: H.Header, region: seq<u8>, pad: seq<u8>)
    requires H.SizedOptions(h.opts) && |region| == 4 * h.ihl - 20
    requires H.OptionsBytes(h.opts) + pad == region
    requires h.padding == (if |pad| < 4 then H.Auto else H.Manual(pad))
    requires forall i :: H.OptsLength(h.opts) <= i < |region| ==> region[i] == 0
    ensures H.PaddingOf(h) == Some(pad)
  {
    H.OptionsBytesLength(h.opts);
    var ob := H.OptionsBytes(h.opts);
    if h.padding.Auto? {
      assert H.AutoPaddingLen(h) == |pad|;
      forall i | 0 <= i < |pad|
        ensures pad[i] == 0
      {
        assert pad[i] == region[|ob| + i];
      }
      assert pad == H.Zeros(|pad|);
    }
  }

  /**
   * Whatever the header part dissects, written out again, is what it
   * consumed, provided the padding it left automatic was zero.
   */
  lemma HeaderWritesBack(buf: seq<u8>, d: Dissector<O.Opt>)
    requires WritesBack(d)
    requires DissectHeader(buf, d).Parsed?
    requires H.SizedOptions(DissectHeader(buf, d).value.opts)
    requires forall i :: 20 + H.OptsLength(DissectHeader(buf, d).value.opts) <= i < 4 * DissectHeader(buf, d).value.ihl ==> buf[i] == 0
    ensures H.HeaderBytes(DissectHeader(buf, d).value).Some?
    ensures H.HeaderBytes(DissectHeader(buf, d).value).value == buf[..4 * DissectHeader(buf, d).value.ihl]
  {
    var h := DissectHeader(buf, d).value;
    DissectedFields(buf, d);
    var tail := buf[20..];
    assert forall i :: H.OptsLength(h.opts) <= i < 4 * h.ihl - 20 ==> tail[i] == buf[20 + i];
    RegionWritesBack(h, tail, d);
    assert tail[..4 * h.ihl - 20] == buf[20..4 * h.ihl];
    HeaderBytesAssembled(buf, h);
  }

  /** A dissected header holds the fixed fields of the buffer and the options region after them. */
  lemma DissectedFields(buf: seq<u8>, d: Dissector<O.Opt>)
    requires DissectHeader(buf, d).Parsed?
    ensures var h := DissectHeader(buf, d).value;
      && h == FixedFields(buf).(opts := h.opts, padding := h.padding)
      && DissectOptions(h.ihl, buf[20..], d).Parsed?
      && DissectOptions(h.ihl, buf[20..], d).value == OptionsRegion(h.opts, h.padding)
  {
  }

  /** The fixed fields of the buffer, followed by the bytes of its options region, serialize to its header octets. */
  lemma HeaderBytesAssembled(buf: seq<u8>, h: H.Header)
    requires 20 <= 4 * h.ihl <= |buf|
    requires h == FixedFields(buf).(opts := h.opts, padding := h.padding)
    requires H.PaddingOf(h).Some? && H.OptionsBytes(h.opts) + H.PaddingOf(h).value == buf[20..4 * h.ihl]
    ensures H.HeaderBytes(h).Some? && H.HeaderBytes(h).value == buf[..4 * h.ihl]
  {
    FixedBytesOfFields(buf);
    H.HeaderBytesParts(h);
    assert H.FixedBytes(h) == H.FixedBytes(FixedFields(buf));
    SameHalves(H.HeaderBytes(h).value, buf, 4 * h.ihl);
  }

  /** Bytes that agree with a prefix of `whole` before and after offset 20 are that prefix. */
  lemma SameHalves(out: seq<u8>, whole: seq<u8>, k: nat)
    requires 20 <= k <= |whole| && |out| >= 20
    requires out[..20] == whole[..20] && out[20..] == whole[20..k]
    ensures out == whole[..k]
  {
    assert out == out[..20] + out[20..];
    assert whole[..k] == whole[..20] + whole[20..k];
  }

  // ---------------------------------------------------------------------
  // Payload and remainder
  // ---------------------------------------------------------------------

  /**
   * As written: what follows the header is the payload, cut where `totlen`
   * ends. `totlen` minus the header length is computed in `usize`, which
   * fails (None) when `totlen` is below the header length and the buffer
   * is not already short enough.
   */
  function SplitPayloadAsWritten(totlen: u16, hdrLen: nat, buf: seq<u8>): (r: Option<(seq<u8>, seq<u8>)>)
    ensures r.None? <==> totlen < hdrLen
  {
    if |buf| + hdrLen <= totlen then Some((buf, []))
    else if totlen < hdrLen then None
    else
      var n := totlen - hdrLen;
      Some((buf[..n], buf[n..]))
  }

  /** A header of twenty octets announcing a total length of zero stops the dissection. */
  lemma SplitPayloadAsWrittenExample()
    ensures SplitPayloadAsWritten(0, 20, []).None?
  {
  }

  /**
   * The payload split with a total length below the header length reported
   * as malformed: the payload is what follows the header up to `totlen`,
   * and anything beyond is the remainder.
   */
  function SplitPayload(totlen: u16, hdrLen: nat, buf: seq<u8>): (r: Result<(seq<u8>, seq<u8>), D.DecodeError>)
    ensures r.Err? <==> totlen < hdrLen
    ensures r.Ok? ==> r.value.0 + r.value.1 == buf
    ensures r.Ok? ==> |r.value.0| == H.Min(|buf|, totlen - hdrLen)
  {
    if totlen < hdrLen then Err(D.Malformed)
    else if |buf| + hdrLen <= totlen then Ok((buf, []))
    else
      var n := totlen - hdrLen;
      assert buf[..n] + buf[n..] == buf;
      Ok((buf[..n], buf[n..]))
  }

  /** Wherever the code as written does not fail, the two splits agree. */
  lemma SplitPayloadAgrees(totlen: u16, hdrLen: nat, buf: seq<u8>)
    ensures SplitPayloadAsWritten(totlen, hdrLen, buf).Some? ==>
      SplitPayload(totlen, hdrLen, buf) == Ok(SplitPayloadAsWritten(totlen, hdrLen, buf).value)
  {
  }

  /** The packet before its payload is dissected: the header and its payload; the remainder is left. */
  datatype Packet = Packet(header: H.Header, payload: seq<u8>)

  /**
   * `IPv4::dissect` up to the dissection of the payload: the header, then
   * the payload cut at `totlen` from what follows.
   */
  function DissectPacket(buf: seq<u8>, d: Dissector<O.Opt>): (r: DResult<Packet>)
    ensures r.Parsed? ==> DissectHeader(buf, d).Parsed? && r.value.header == DissectHeader(buf, d).value
    ensures r.Parsed? ==> buf == buf[..4 * r.value.header.ihl] + r.value.payload + r.rest
    ensures r.Parsed? && r.rest != [] ==> 4 * r.value.header.ihl + |r.value.payload| == r.value.header.totlen
  {
    match DissectHeader(buf, d)
    case Parsed(rest, h) =>
      (match SplitPayload(h.totlen, 4 * h.ihl, rest)
       case Ok((payload, rem)) =>
         assert buf == buf[..4 * h.ihl] + rest;
         Parsed(rem, Packet(h, payload))
       case Err(e) => Error(e))
    case Error(e) => Error(e)
    case Failure(e) => Failure(e)
    case Incomplete(n) => Incomplete(n)
  }
}
