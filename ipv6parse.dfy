/**
 * `parse_ipv6`: hex words before a "::" fill the address from the front,
 * hex words after it fill it from the back, and a dotted IPv4 address may
 * take the place of the last two words.
 *
 * The code as written is `ParseIpv6AsWritten` (with the imperative
 * `ParseIpv6Method` proved equal to it); `ParseIpv6` is the corrected
 * parser the rest of the model uses.
 */
module Ipv6Parse {
  import opened Wrappers
  import opened Bits
  import Text
  import Ipv4Addr
  import opened Ipv6Addr
  import opened AddrParse

  /** How the code as written ends: a result, or the `usize` underflow panic of overflow-checked builds. */
  datatype Outcome = Done(result: Result<Ipv6Address, AddressParseError>) | Overflow

  /** After the words before "::": the address so far and the next index, or the end. */
  datatype Stage = Next(addr: Ipv6Address, idx: nat) | Stop(outcome: Outcome)

  const Unspecified: Ipv6Address := [0, 0, 0, 0, 0, 0, 0, 0, 0, 0, 0, 0, 0, 0, 0, 0]

  /** `u16::from_str_radix(word, 16)`. */
  function HexWord(word: string): (r: Result<nat, Text.IntError>)
    ensures r.Ok? ==> r.value < 0x1_0000
  {
    Text.ParseUnsigned(word, 16, 0xFFFF)
  }

  /** Word `k` of the address: bytes `2k` and `2k + 1`, big-endian. */
  function W(a: Ipv6Address, k: nat): nat
    requires k < 8
  {
    a[2 * k] as int * 0x100 + a[2 * k + 1] as int
  }

  /** `word.to_be_bytes()` stored at `hi` and `hi + 1`. */
  function SetWord(addr: Ipv6Address, hi: nat, w: nat): (r: Ipv6Address)
    requires hi < 15 && w < 0x1_0000
    ensures r[hi] as int * 0x100 + r[hi + 1] as int == w
    ensures forall j :: 0 <= j < 16 && j != hi && j != hi + 1 ==> r[j] == addr[j]
    ensures hi % 2 == 0 ==> W(r, hi / 2) == w && forall k :: 0 <= k < 8 && k != hi / 2 ==> W(r, k) == W(addr, k)
  {
    addr[hi := w / 0x100][hi + 1 := w % 0x100]
  }

  /** `parse_ipv4(word)` written over the last four bytes. */
  function Ipv4Tail(addr: Ipv6Address, word: string): (r: Result<Ipv6Address, AddressParseError>)
    ensures r.Ok? <==> ParseIpv4(word).Ok?
    ensures r.Ok? ==> r.value[..12] == addr[..12] && r.value[12..] == ParseIpv4(word).value
  {
    match ParseIpv4(word)
    case Err(e) => Err(e)
    case Ok(v4) => Ok(addr[..12] + v4)
  }

  // ---------------------------------------------------------------------
  // The code as written.
  // ---------------------------------------------------------------------

  /**
   * The loop over the words before "::" from byte `idx`: a seventeenth byte
   * is `InvalidLength`; a word that is not hex is an IPv4 tail at byte 12
   * (and then the parse ends there), a parse error anywhere else.
   */
  function ForwardAsWritten(words: seq<string>, addr: Ipv6Address, idx: nat, more: bool): (st: Stage)
    requires idx <= 16 && idx % 2 == 0
    ensures st.Next? ==> st.idx <= 16 && st.idx % 2 == 0
    decreases |words|
  {
    if words == [] then Next(addr, idx)
    else if idx >= 16 then Stop(Done(Err(InvalidLength)))
    else
      match HexWord(words[0])
      case Ok(w) => ForwardAsWritten(words[1..], SetWord(addr, idx, w), idx + 2, more)
      case Err(e) =>
        if idx != 12 then Stop(Done(Err(ParseInt(e))))
        else if more then Stop(Done(Err(InvalidLength)))
        else Stop(Done(Ipv4Tail(addr, words[0])))
  }

  /**
   * The loop over the words after "::", last word first, from byte `idx`
   * down: a word below `end` is `InvalidLength`; a word that is not hex is
   * an IPv4 tail when it is the last word, a parse error otherwise.  The
   * second decrement of `idx` from 0 is the `usize` underflow.
   */
  function BackwardAsWritten(words: seq<string>, addr: Ipv6Address, idx: int, end: nat): (o: Outcome)
    requires idx <= 15 && idx % 2 == 1
    decreases |words|
  {
    if words == [] then Done(Ok(addr))
    else if idx < end then Done(Err(InvalidLength))
    else
      var word := words[|words| - 1];
      match HexWord(word)
      case Ok(w) =>
        if idx == 1 then Overflow
        else BackwardAsWritten(words[..|words| - 1], SetWord(addr, idx - 1, w), idx - 2, end)
      case Err(e) =>
        if idx == 15 then Done(Ipv4Tail(addr, word)) else Done(Err(ParseInt(e)))
  }

  /** `parse_ipv6` as written. */
  function ParseIpv6AsWritten(s: string): (o: Outcome)
  {
    var parts := Text.SplitDoubleColon(s);
    var st := if parts[0] == [] then Next(Unspecified, 0)
              else ForwardAsWritten(Text.Split(parts[0], {':'}), Unspecified, 0, |parts| >= 2);
    match st
    case Stop(o) => o
    case Next(addr, idx) =>
      if |parts| >= 2 then
        if |parts| >= 3 then Done(Err(InvalidLength))
        else if parts[1] == [] then Done(Ok(addr))
        else BackwardAsWritten(Text.Split(parts[1], {':'}), addr, 15, idx)
      else if idx < 16 then Done(Err(InvalidLength))
      else Done(Ok(addr))
  }

  /** `parse_ipv6`, step by step over a 16-byte buffer. */
  method ParseIpv6Method(s: string) returns (o: Outcome)
    ensures o == ParseIpv6AsWritten(s)
  {
    var addr := new u8[16](_ => 0);
    assert addr[..] == Unspecified;
    var parts := Text.SplitDoubleColon(s);
    var idx: nat := 0;
    var more := |parts| >= 2;
    if parts[0] != [] {
      var st := ForwardLoop(Text.Split(parts[0], {':'}), addr, more);
      if st.Stop? {
        return st.outcome;
      }
      idx := st.idx;
    }
    if |parts| >= 2 {
      if |parts| >= 3 {
        return Done(Err(InvalidLength));
      }
      if parts[1] != [] {
        o := BackwardLoop(Text.Split(parts[1], {':'}), addr, idx);
        return;
      }
    } else if idx < 16 {
      return Done(Err(InvalidLength));
    }
    return Done(Ok(addr[..]));
  }

  /** The first `for` loop of `parse_ipv6`, writing into `addr`. */
  method ForwardLoop(words: seq<string>, addr: array<u8>, more: bool) returns (st: Stage)
    requires addr.Length == 16
    modifies addr
    ensures st == ForwardAsWritten(words, old(addr[..]), 0, more)
    ensures st.Next? ==> addr[..] == st.addr
  {
    var idx: nat := 0;
    var i := 0;
    while i < |words|
      invariant 0 <= i <= |words| && idx <= 16 && idx % 2 == 0
      invariant ForwardAsWritten(words, old(addr[..]), 0, more) == ForwardAsWritten(words[i..], addr[..], idx, more)
    {
      assert words[i..][1..] == words[i + 1..];
      if idx >= 16 {
        return Stop(Done(Err(InvalidLength)));
      }
      var word := HexWord(words[i]);
      if word.Err? {
        if idx != 12 {
          return Stop(Done(Err(ParseInt(word.error))));
        }
        if more {
          return Stop(Done(Err(InvalidLength)));
        }
        var v4 := ParseIpv4(words[i]);
        if v4.Err? {
          return Stop(Done(Err(v4.error)));
        }
        ghost var before := addr[..];
        addr[12], addr[13], addr[14], addr[15] := v4.value[0], v4.value[1], v4.value[2], v4.value[3];
        assert addr[..] == before[..12] + v4.value;
        return Stop(Done(Ok(addr[..])));
      }
      ghost var before := addr[..];
      addr[idx] := word.value / 0x100;
      idx := idx + 1;
      addr[idx] := word.value % 0x100;
      idx := idx + 1;
      WroteWord(before, addr[..], idx - 2, word.value);
      ForwardAsWrittenHexStep(words[i..], before, idx - 2, more);
      i := i + 1;
    }
    assert words[i..] == [];
    return Next(addr[..], idx);
  }

  /** Two bytes written at `hi` and `hi + 1`, and nothing else changed, store a word. */
  lemma WroteWord(before: seq<u8>, after: seq<u8>, hi: nat, w: nat)
    requires |before| == 16 && |after| == 16 && hi < 15 && w < 0x1_0000
    requires after[hi] as int == w / 0x100 && after[hi + 1] as int == w % 0x100
    requires forall j :: 0 <= j < 16 && j != hi && j != hi + 1 ==> after[j] == before[j]
    ensures after == SetWord(before, hi, w)
  {
  }

  /** The second `for` loop of `parse_ipv6`, over the words in reverse. */
  method BackwardLoop(words: seq<string>, addr: array<u8>, end: nat) returns (o: Outcome)
    requires addr.Length == 16
    modifies addr
    ensures o == BackwardAsWritten(words, old(addr[..]), 15, end)
  {
    var idx: int := 15;
    var i := |words|;
    assert words[..i] == words;
    while i > 0
      invariant 0 <= i <= |words| && idx <= 15 && idx % 2 == 1
      invariant BackwardAsWritten(words, old(addr[..]), 15, end) == BackwardAsWritten(words[..i], addr[..], idx, end)
    {
      assert words[..i][..i - 1] == words[..i - 1] && words[..i][i - 1] == words[i - 1];
      BackwardEnds(words[..i], addr[..], idx, end);
      if idx < end {
        return Done(Err(InvalidLength));
      }
      var word := HexWord(words[i - 1]);
      if word.Err? {
        if idx != 15 {
          return Done(Err(ParseInt(word.error)));
        }
        // The "::" iterator is already exhausted here, so its third check never fires.
        var v4 := ParseIpv4(words[i - 1]);
        if v4.Err? {
          return Done(Err(v4.error));
        }
        ghost var before := addr[..];
        addr[12], addr[13], addr[14], addr[15] := v4.value[0], v4.value[1], v4.value[2], v4.value[3];
        assert addr[..] == before[..12] + v4.value;
        return Done(Ok(addr[..]));
      }
      ghost var before := addr[..];
      addr[idx] := word.value % 0x100;
      idx := idx - 1;
      addr[idx] := word.value / 0x100;
      if idx == 0 {
        return Overflow;
      }
      assert addr[..] == SetWord(before, idx, word.value);
      BackwardAsWrittenHexStep(words[..i], before, idx + 1, end);
      idx := idx - 1;
      i := i - 1;
    }
    return Done(Ok(addr[..]));
  }

  // ---------------------------------------------------------------------
  // The corrected parser.
  // ---------------------------------------------------------------------

  /** As `ForwardAsWritten`, except that an IPv4 tail must be the last word of the text. */
  function Forward(words: seq<string>, addr: Ipv6Address, idx: nat, more: bool): (st: Stage)
    requires idx <= 16 && idx % 2 == 0
    ensures st.Next? ==> st.idx <= 16 && st.idx % 2 == 0
    ensures st.Stop? ==> st.outcome.Done?
    decreases |words|
  {
    if words == [] then Next(addr, idx)
    else if idx >= 16 then Stop(Done(Err(InvalidLength)))
    else
      match HexWord(words[0])
      case Ok(w) => Forward(words[1..], SetWord(addr, idx, w), idx + 2, more)
      case Err(e) =>
        if idx != 12 then Stop(Done(Err(ParseInt(e))))
        else if more || |words| > 1 then Stop(Done(Err(InvalidLength)))
        else Stop(Done(Ipv4Tail(addr, words[0])))
  }

  /**
   * As `BackwardAsWritten`, with a signed index (so no underflow), and with
   * an IPv4 tail that may only take bytes 12..16 when the words before "::"
   * left them free, after which the words before it go on from byte 11.
   */
  function Backward(words: seq<string>, addr: Ipv6Address, idx: int, end: nat): (r: Result<Ipv6Address, AddressParseError>)
    requires idx <= 15 && idx % 2 == 1
    decreases |words|
  {
    if words == [] then Ok(addr)
    else if idx < end then Err(InvalidLength)
    else
      var word := words[|words| - 1];
      match HexWord(word)
      case Ok(w) => Backward(words[..|words| - 1], SetWord(addr, idx - 1, w), idx - 2, end)
      case Err(e) =>
        if idx != 15 then Err(ParseInt(e))
        else if end > 12 then Err(InvalidLength)
        else
          match ParseIpv4(word)
          case Err(e4) => Err(e4)
          case Ok(v4) => Backward(words[..|words| - 1], addr[..12] + v4, 11, end)
  }

  /** `parse_ipv6`, corrected. */
  function ParseIpv6(s: string): (r: Result<Ipv6Address, AddressParseError>)
  {
    var parts := Text.SplitDoubleColon(s);
    var st := if parts[0] == [] then Next(Unspecified, 0)
              else Forward(Text.Split(parts[0], {':'}), Unspecified, 0, |parts| >= 2);
    match st
    case Stop(o) => o.result
    case Next(addr, idx) =>
      if |parts| >= 2 then
        if |parts| >= 3 then Err(InvalidLength)
        else if parts[1] == [] then Ok(addr)
        else Backward(Text.Split(parts[1], {':'}), addr, 15, idx)
      else if idx < 16 then Err(InvalidLength)
      else Ok(addr)
  }

  /** `parse_ipv6_subnet`, over the corrected parser. */
  function ParseIpv6Subnet(s: string): (r: Result<(Ipv6Address, nat), SubnetParseError>)
    ensures r.Ok? ==> r.value.1 <= 128
  {
    ParseSubnet(s, ParseIpv6, 128)
  }

  // ---------------------------------------------------------------------
  // Words placed into the address.
  // ---------------------------------------------------------------------

  predicate AllHex(words: seq<string>)
  {
    forall j :: 0 <= j < |words| ==> HexWord(words[j]).Ok?
  }

  function WordValues(words: seq<string>): (vs: seq<nat>)
    requires AllHex(words)
    ensures |vs| == |words| && forall j :: 0 <= j < |vs| ==> vs[j] < 0x1_0000
  {
    seq(|words|, j requires 0 <= j < |words| => HexWord(words[j]).value)
  }

  predicate WordsFit(vs: seq<nat>)
  {
    forall j :: 0 <= j < |vs| ==> vs[j] < 0x1_0000
  }

  /** The address with the words `vs` stored big-endian from word `q` on. */
  function Placed(addr: Ipv6Address, q: nat, vs: seq<nat>): (r: Ipv6Address)
    requires q + |vs| <= 8 && WordsFit(vs)
    ensures forall k :: q <= k < q + |vs| ==> W(r, k) == vs[k - q]
    ensures forall k :: 0 <= k < 8 && !(q <= k < q + |vs|) ==> W(r, k) == W(addr, k)
  {
    seq(16, j requires 0 <= j < 16 =>
      if q <= j / 2 < q + |vs| then
        (if j % 2 == 0 then vs[j / 2 - q] / 0x100 else vs[j / 2 - q] % 0x100)
      else addr[j])
  }

  /** Two addresses that agree on every word agree on every byte. */
  lemma SameWords(x: Ipv6Address, y: Ipv6Address)
    requires forall k :: 0 <= k < 8 ==> W(x, k) == W(y, k)
    ensures x == y
  {
    forall j | 0 <= j < 16
      ensures x[j] == y[j]
    {
      var k := j / 2;
      assert W(x, k) == W(y, k);
      DivModUnique(W(x, k), 0x100, x[2 * k], x[2 * k + 1]);
      DivModUnique(W(y, k), 0x100, y[2 * k], y[2 * k + 1]);
    }
  }

  /** Placing the first word, then the rest one word on, places them all. */
  lemma PlacedFront(addr: Ipv6Address, q: nat, vs: seq<nat>)
    requires |vs| >= 1 && q + |vs| <= 8 && WordsFit(vs)
    ensures Placed(SetWord(addr, 2 * q, vs[0]), q + 1, vs[1..]) == Placed(addr, q, vs)
  {
    var a1 := SetWord(addr, 2 * q, vs[0]);
    var x := Placed(a1, q + 1, vs[1..]);
    var y := Placed(addr, q, vs);
    forall k | 0 <= k < 8
      ensures W(x, k) == W(y, k)
    {
      if k == q {
        assert W(x, k) == W(a1, q);
      } else if q < k < q + |vs| {
        assert W(x, k) == vs[1..][k - q - 1];
      } else {
        assert W(x, k) == W(a1, k);
      }
    }
    SameWords(x, y);
  }

  /** PlacedBack for the word that ends at byte `idx`. */
  lemma PlacedBackAt(addr: Ipv6Address, q: nat, vs: seq<nat>, idx: int)
    requires |vs| >= 1 && q + |vs| <= 8 && WordsFit(vs) && idx == 2 * (q + |vs|) - 1
    ensures Placed(SetWord(addr, idx - 1, vs[|vs| - 1]), q, vs[..|vs| - 1]) == Placed(addr, q, vs)
  {
    PlacedBack(addr, q, vs);
  }

  /** Placing the last word, then the rest, places them all. */
  lemma PlacedBack(addr: Ipv6Address, q: nat, vs: seq<nat>)
    requires |vs| >= 1 && q + |vs| <= 8 && WordsFit(vs)
    ensures Placed(SetWord(addr, 2 * (q + |vs| - 1), vs[|vs| - 1]), q, vs[..|vs| - 1]) == Placed(addr, q, vs)
  {
    var last := q + |vs| - 1;
    var a1 := SetWord(addr, 2 * last, vs[|vs| - 1]);
    var x := Placed(a1, q, vs[..|vs| - 1]);
    var y := Placed(addr, q, vs);
    forall k | 0 <= k < 8
      ensures W(x, k) == W(y, k)
    {
      if k == last {
        assert W(x, k) == W(a1, last);
      } else if q <= k < last {
        assert W(x, k) == vs[..|vs| - 1][k - q];
      } else {
        assert W(x, k) == W(a1, k);
      }
    }
    SameWords(x, y);
  }

  lemma AllHexTail(words: seq<string>)
    requires words != [] && AllHex(words)
    ensures AllHex(words[1..]) && WordValues(words[1..]) == WordValues(words)[1..]
  {
    forall j | 0 <= j < |words[1..]|
      ensures HexWord(words[1..][j]).Ok?
    {
      assert words[1..][j] == words[j + 1];
    }
  }

  lemma AllHexInit(words: seq<string>)
    requires words != [] && AllHex(words)
    ensures AllHex(words[..|words| - 1]) && WordValues(words[..|words| - 1]) == WordValues(words)[..|words| - 1]
  {
    var init := words[..|words| - 1];
    forall j | 0 <= j < |init|
      ensures HexWord(init[j]).Ok?
    {
      assert init[j] == words[j];
    }
  }

  /** The words `vs` stored one after another from byte `idx` on, first word first. */
  function PlaceFront(addr: Ipv6Address, idx: nat, vs: seq<nat>): Ipv6Address
    requires idx % 2 == 0 && idx + 2 * |vs| <= 16 && WordsFit(vs)
    decreases |vs|
  {
    if vs == [] then addr else PlaceFront(SetWord(addr, idx, vs[0]), idx + 2, vs[1..])
  }

  /** The words `vs` stored one before another ending at byte `idx`, last word first. */
  function PlaceBack(addr: Ipv6Address, idx: int, vs: seq<nat>): Ipv6Address
    requires idx <= 15 && idx % 2 == 1 && idx + 1 - 2 * |vs| >= 0 && WordsFit(vs)
    decreases |vs|
  {
    if vs == [] then addr
    else PlaceBack(SetWord(addr, idx - 1, vs[|vs| - 1]), idx - 2, vs[..|vs| - 1])
  }

  lemma {:induction false} PlaceFrontIsPlaced(addr: Ipv6Address, idx: nat, vs: seq<nat>)
    requires idx % 2 == 0 && idx + 2 * |vs| <= 16 && WordsFit(vs)
    ensures PlaceFront(addr, idx, vs) == Placed(addr, idx / 2, vs)
    decreases |vs|
  {
    if vs == [] {
      PlacedEmpty(addr, idx / 2);
    } else {
      PlaceFrontIsPlaced(SetWord(addr, idx, vs[0]), idx + 2, vs[1..]);
      assert (idx + 2) / 2 == idx / 2 + 1;
      PlacedFront(addr, idx / 2, vs);
    }
  }

  lemma {:induction false} PlaceBackIsPlaced(addr: Ipv6Address, idx: int, vs: seq<nat>)
    requires idx <= 15 && idx % 2 == 1 && idx + 1 - 2 * |vs| >= 0 && WordsFit(vs)
    ensures PlaceBack(addr, idx, vs) == Placed(addr, (idx + 1) / 2 - |vs|, vs)
    decreases |vs|
  {
    var q := (idx + 1) / 2 - |vs|;
    if vs == [] {
      PlacedEmpty(addr, q);
    } else {
      var n := |vs|;
      PlaceBackIsPlaced(SetWord(addr, idx - 1, vs[n - 1]), idx - 2, vs[..n - 1]);
      assert (idx - 2 + 1) / 2 - (n - 1) == q;
      PlacedBackAt(addr, q, vs, idx);
    }
  }

  /** The forward loop over hex words places them all, or runs out of room. */
  lemma ForwardAllHex(words: seq<string>, addr: Ipv6Address, idx: nat, more: bool)
    requires idx <= 16 && idx % 2 == 0 && AllHex(words)
    ensures idx + 2 * |words| <= 16 ==>
      ForwardAsWritten(words, addr, idx, more) == Next(Placed(addr, idx / 2, WordValues(words)), idx + 2 * |words|) &&
      Forward(words, addr, idx, more) == Next(Placed(addr, idx / 2, WordValues(words)), idx + 2 * |words|)
    ensures idx + 2 * |words| > 16 ==>
      ForwardAsWritten(words, addr, idx, more) == Stop(Done(Err(InvalidLength))) &&
      Forward(words, addr, idx, more) == Stop(Done(Err(InvalidLength)))
  {
    ForwardAllHexAsWritten(words, addr, idx, more);
    ForwardAllHexCorrected(words, addr, idx, more);
    if idx + 2 * |words| <= 16 {
      PlaceFrontIsPlaced(addr, idx, WordValues(words));
    }
  }

  lemma {:induction false} ForwardAllHexAsWritten(words: seq<string>, addr: Ipv6Address, idx: nat, more: bool)
    requires idx <= 16 && idx % 2 == 0 && AllHex(words)
    ensures idx + 2 * |words| <= 16 ==>
      ForwardAsWritten(words, addr, idx, more) == Next(PlaceFront(addr, idx, WordValues(words)), idx + 2 * |words|)
    ensures idx + 2 * |words| > 16 ==> ForwardAsWritten(words, addr, idx, more) == Stop(Done(Err(InvalidLength)))
    decreases |words|
  {
    if words != [] && idx < 16 {
      var vs := WordValues(words);
      AllHexTail(words);
      var a1 := SetWord(addr, idx, vs[0]);
      ForwardHexStep(words, addr, idx, more);
      ForwardAllHexAsWritten(words[1..], a1, idx + 2, more);
    }
  }

  lemma {:induction false} ForwardAllHexCorrected(words: seq<string>, addr: Ipv6Address, idx: nat, more: bool)
    requires idx <= 16 && idx % 2 == 0 && AllHex(words)
    ensures idx + 2 * |words| <= 16 ==>
      Forward(words, addr, idx, more) == Next(PlaceFront(addr, idx, WordValues(words)), idx + 2 * |words|)
    ensures idx + 2 * |words| > 16 ==> Forward(words, addr, idx, more) == Stop(Done(Err(InvalidLength)))
    decreases |words|
  {
    if words != [] && idx < 16 {
      var vs := WordValues(words);
      AllHexTail(words);
      var a1 := SetWord(addr, idx, vs[0]);
      ForwardHexStep(words, addr, idx, more);
      ForwardAllHexCorrected(words[1..], a1, idx + 2, more);
    }
  }

  /** The backward loop over hex words places them all, the last one ending at byte `idx`. */
  lemma BackwardAllHex(words: seq<string>, addr: Ipv6Address, idx: int, end: nat)
    requires idx <= 15 && idx % 2 == 1 && AllHex(words)
    requires idx + 1 - 2 * |words| >= end && idx + 1 - 2 * |words| >= 0
    ensures Backward(words, addr, idx, end) == Ok(Placed(addr, (idx + 1) / 2 - |words|, WordValues(words)))
    ensures idx + 1 - 2 * |words| >= 2 ==>
      BackwardAsWritten(words, addr, idx, end) == Done(Ok(Placed(addr, (idx + 1) / 2 - |words|, WordValues(words))))
  {
    BackwardAllHexCorrected(words, addr, idx, end);
    if idx + 1 - 2 * |words| >= 2 {
      BackwardAllHexAsWritten(words, addr, idx, end);
    }
    PlaceBackIsPlaced(addr, idx, WordValues(words));
  }

  lemma {:induction false} BackwardAllHexCorrected(words: seq<string>, addr: Ipv6Address, idx: int, end: nat)
    requires idx <= 15 && idx % 2 == 1 && AllHex(words)
    requires idx + 1 - 2 * |words| >= end && idx + 1 - 2 * |words| >= 0
    ensures Backward(words, addr, idx, end) == Ok(PlaceBack(addr, idx, WordValues(words)))
    decreases |words|
  {
    if words != [] {
      var n := |words|;
      var vs := WordValues(words);
      var init := words[..n - 1];
      AllHexInit(words);
      BackwardHexStep(words, addr, idx, end);
      BackwardAllHexCorrected(init, SetWord(addr, idx - 1, vs[n - 1]), idx - 2, end);
    }
  }

  lemma BackwardHexStep(words: seq<string>, addr: Ipv6Address, idx: int, end: nat)
    requires idx <= 15 && idx % 2 == 1 && words != [] && idx >= end && idx >= 1
    requires HexWord(words[|words| - 1]).Ok?
    ensures Backward(words, addr, idx, end) ==
      Backward(words[..|words| - 1], SetWord(addr, idx - 1, HexWord(words[|words| - 1]).value), idx - 2, end)
  {
  }

  lemma {:induction false} BackwardAllHexAsWritten(words: seq<string>, addr: Ipv6Address, idx: int, end: nat)
    requires idx <= 15 && idx % 2 == 1 && AllHex(words)
    requires idx + 1 - 2 * |words| >= end && idx + 1 - 2 * |words| >= 2
    ensures BackwardAsWritten(words, addr, idx, end) == Done(Ok(PlaceBack(addr, idx, WordValues(words))))
    decreases |words|
  {
    if words != [] {
      var n := |words|;
      var next := SetWord(addr, idx - 1, WordValues(words)[n - 1]);
      BackwardHexUnfold(words, addr, idx, end);
      BackwardAllHexAsWritten(words[..n - 1], next, idx - 2, end);
    }
  }

  /** One word of the backward walk over hex words, on both sides of the equation. */
  lemma BackwardHexUnfold(words: seq<string>, addr: Ipv6Address, idx: int, end: nat)
    requires idx <= 15 && idx % 2 == 1 && AllHex(words) && words != []
    requires idx + 1 - 2 * |words| >= end && idx + 1 - 2 * |words| >= 2
    ensures AllHex(words[..|words| - 1])
    ensures var next := SetWord(addr, idx - 1, WordValues(words)[|words| - 1]);
      && BackwardAsWritten(words, addr, idx, end) == BackwardAsWritten(words[..|words| - 1], next, idx - 2, end)
      && PlaceBack(addr, idx, WordValues(words)) == PlaceBack(next, idx - 2, WordValues(words[..|words| - 1]))
  {
    AllHexInit(words);
    BackwardAsWrittenHexStep(words, addr, idx, end);
  }

  /** The outcomes of one backward step that end the walk. */
  lemma BackwardEnds(words: seq<string>, addr: Ipv6Address, idx: int, end: nat)
    requires idx <= 15 && idx % 2 == 1 && words != []
    ensures var word := words[|words| - 1];
      && (idx < end ==> BackwardAsWritten(words, addr, idx, end) == Done(Err(InvalidLength)))
      && (idx >= end && HexWord(word).Err? && idx != 15 ==>
            BackwardAsWritten(words, addr, idx, end) == Done(Err(ParseInt(HexWord(word).error))))
      && (idx >= end && HexWord(word).Err? && idx == 15 && ParseIpv4(word).Err? ==>
            BackwardAsWritten(words, addr, idx, end) == Done(Err(ParseIpv4(word).error)))
      && (idx >= end && HexWord(word).Err? && idx == 15 && ParseIpv4(word).Ok? ==>
            BackwardAsWritten(words, addr, idx, end) == Done(Ok(addr[..12] + ParseIpv4(word).value)))
  {
  }

  lemma BackwardAsWrittenHexStep(words: seq<string>, addr: Ipv6Address, idx: int, end: nat)
    requires idx <= 15 && idx % 2 == 1 && words != [] && idx >= end && idx > 1
    requires HexWord(words[|words| - 1]).Ok?
    ensures BackwardAsWritten(words, addr, idx, end) ==
      BackwardAsWritten(words[..|words| - 1], SetWord(addr, idx - 1, HexWord(words[|words| - 1]).value), idx - 2, end)
  {
  }

  lemma ForwardAsWrittenHexStep(words: seq<string>, addr: Ipv6Address, idx: nat, more: bool)
    requires idx < 16 && idx % 2 == 0 && words != [] && HexWord(words[0]).Ok?
    ensures ForwardAsWritten(words, addr, idx, more) ==
      ForwardAsWritten(words[1..], SetWord(addr, idx, HexWord(words[0]).value), idx + 2, more)
  {
  }

  lemma ForwardHexStep(words: seq<string>, addr: Ipv6Address, idx: nat, more: bool)
    requires idx < 16 && idx % 2 == 0 && words != [] && HexWord(words[0]).Ok?
    ensures Forward(words, addr, idx, more) ==
      Forward(words[1..], SetWord(addr, idx, HexWord(words[0]).value), idx + 2, more)
  {
  }

  lemma PlacedEmpty(addr: Ipv6Address, q: nat)
    requires q <= 8
    ensures Placed(addr, q, []) == addr
  {
    SameWords(Placed(addr, q, []), addr);
  }

  // ---------------------------------------------------------------------
  // Parsing what `Display` prints.
  // ---------------------------------------------------------------------

  lemma {:induction false} SuffixedJoin(vs: seq<nat>)
    requires |vs| >= 1
    ensures Suffixed(vs) == Text.Join(HexWords(vs), ':') + ":"
    decreases |vs|
  {
    var n := |vs|;
    assert HexWords(vs) == HexWords(vs[..n - 1]) + [Hex(vs[n - 1])];
    if n == 1 {
      assert vs[..0] == [];
    } else {
      SuffixedJoin(vs[..n - 1]);
      Text.JoinSnoc(HexWords(vs[..n - 1]), Hex(vs[n - 1]), ':');
    }
  }

  lemma {:induction false} PrefixedJoin(vs: seq<nat>)
    requires |vs| >= 1
    ensures Prefixed(vs) == ":" + Text.Join(HexWords(vs), ':')
    decreases |vs|
  {
    var n := |vs|;
    assert HexWords(vs) == HexWords(vs[..n - 1]) + [Hex(vs[n - 1])];
    if n == 1 {
      assert vs[..0] == [];
    } else {
      PrefixedJoin(vs[..n - 1]);
      Text.JoinSnoc(HexWords(vs[..n - 1]), Hex(vs[n - 1]), ':');
    }
  }

  /** With a zero run, the text is the words before it and after it around "::". */
  lemma RenderSplit(ws: seq<nat>, st: nat, en: nat)
    requires st < en <= |ws|
    ensures Render(ws, st, en) == Text.Join(HexWords(ws[..st]), ':') + "::" + Text.Join(HexWords(ws[en..]), ':')
  {
    if st > 0 {
      SuffixedJoin(ws[..st]);
    }
    if en < |ws| {
      PrefixedJoin(ws[en..]);
    }
  }

  /** Hex words joined by ':' split back into the words, which parse to their values. */
  lemma JoinedHex(vs: seq<nat>)
    requires WordsFit(vs)
    ensures AllHex(HexWords(vs)) && WordValues(HexWords(vs)) == vs
    ensures Text.NoDoubleColon(Text.Join(HexWords(vs), ':'))
    ensures vs == [] ==> Text.Join(HexWords(vs), ':') == []
    ensures |vs| >= 1 ==> (Text.Join(HexWords(vs), ':') != [] &&
      Text.Split(Text.Join(HexWords(vs), ':'), {':'}) == HexWords(vs))
  {
    var hs := HexWords(vs);
    forall j | 0 <= j < |vs|
      ensures HexWord(hs[j]) == Ok(vs[j]) && Text.DigitText(hs[j]) && Text.Avoids(hs[j], {':'})
    {
      Text.FormatRoundTrip(vs[j], 16, 0xFFFF);
      Text.DigitTextAvoids(hs[j], {':'});
    }
    Text.JoinDigitTextNoDoubleColon(hs);
    if |vs| >= 1 {
      Text.JoinStartsWithDigit(hs);
      Text.SplitJoin(hs, ':', {':'});
    }
  }

  /** How "::" splits the `Display` text: one part, or the words around the zero run. */
  lemma DisplaySplit(a: Ipv6Address)
    ensures var ws := Words(a);
      var (st, en) := ZeroRun(ws);
      st <= en <= 8 && AllZero(ws, st, en) &&
      (st == en ==> Text.SplitDoubleColon(DisplayText(a)) == [Text.Join(HexWords(ws), ':')]) &&
      (st < en ==> (Text.SplitDoubleColon(DisplayText(a)) ==
        [Text.Join(HexWords(ws[..st]), ':'), Text.Join(HexWords(ws[en..]), ':')]))
  {
    var ws := Words(a);
    var (st, en) := ZeroRun(ws);
    ZeroRunIsFirstLongest(ws);
    if st == en {
      JoinedHex(ws);
      Text.SplitDoubleColonNone(Text.Join(HexWords(ws), ':'));
    } else {
      var j1 := Text.Join(HexWords(ws[..st]), ':');
      var j2 := Text.Join(HexWords(ws[en..]), ':');
      RenderSplit(ws, st, en);
      JoinedHex(ws[..st]);
      JoinedHex(ws[en..]);
      Text.SplitDoubleColonAfter(j1, j2);
      Text.SplitDoubleColonNone(j2);
    }
  }

  /** The words before the run, zeros, then the words after it, make up the address. */
  lemma AssembledIsAddress(a: Ipv6Address, st: nat, en: nat)
    requires st <= en <= 8 && AllZero(Words(a), st, en)
    ensures Placed(Placed(Unspecified, 0, Words(a)[..st]), en, Words(a)[en..]) == a
  {
    var ws := Words(a);
    var a1 := Placed(Unspecified, 0, ws[..st]);
    var x := Placed(a1, en, ws[en..]);
    forall k | 0 <= k < 8
      ensures W(x, k) == W(a, k)
    {
      assert ws[k] == W(a, k);
      if k >= en {
        assert W(x, k) == ws[en..][k - en];
      } else if k < st {
        assert W(x, k) == W(a1, k) == ws[..st][k];
      } else {
        assert W(x, k) == W(a1, k) == W(Unspecified, k);
      }
    }
    SameWords(x, a);
  }

  /** The words before "::" fill the front of the address. */
  lemma FirstPart(vs: seq<nat>, more: bool)
    requires WordsFit(vs) && |vs| <= 8
    ensures var j := Text.Join(HexWords(vs), ':');
      (if j == [] then Next(Unspecified, 0) else ForwardAsWritten(Text.Split(j, {':'}), Unspecified, 0, more))
        == Next(Placed(Unspecified, 0, vs), 2 * |vs|) &&
      (if j == [] then Next(Unspecified, 0) else Forward(Text.Split(j, {':'}), Unspecified, 0, more))
        == Next(Placed(Unspecified, 0, vs), 2 * |vs|)
  {
    JoinedHex(vs);
    if vs == [] {
      PlacedEmpty(Unspecified, 0);
    } else {
      ForwardAllHex(HexWords(vs), Unspecified, 0, more);
    }
  }

  /** At most seven words after "::" fill the back of the address. */
  lemma SecondPart(vs: seq<nat>, addr: Ipv6Address, end: nat)
    requires WordsFit(vs) && |vs| <= 7 && end <= 2 * (8 - |vs|)
    ensures var j := Text.Join(HexWords(vs), ':');
      (if j == [] then Done(Ok(addr)) else BackwardAsWritten(Text.Split(j, {':'}), addr, 15, end))
        == Done(Ok(Placed(addr, 8 - |vs|, vs))) &&
      (if j == [] then Ok(addr) else Backward(Text.Split(j, {':'}), addr, 15, end))
        == Ok(Placed(addr, 8 - |vs|, vs))
  {
    JoinedHex(vs);
    if vs == [] {
      PlacedEmpty(addr, 8);
    } else {
      BackwardWords(HexWords(vs), vs, addr, end);
    }
  }

  lemma BackwardWords(hs: seq<string>, vs: seq<nat>, addr: Ipv6Address, end: nat)
    requires AllHex(hs) && WordValues(hs) == vs && |hs| == |vs| && |vs| <= 7 && end <= 2 * (8 - |vs|)
    ensures BackwardAsWritten(hs, addr, 15, end) == Done(Ok(Placed(addr, 8 - |vs|, vs)))
    ensures Backward(hs, addr, 15, end) == Ok(Placed(addr, 8 - |vs|, vs))
  {
    BackwardAllHex(hs, addr, 15, end);
  }

  lemma DisplayWithoutRun(a: Ipv6Address)
    requires ZeroRun(Words(a)).0 == ZeroRun(Words(a)).1
    ensures ParseIpv6AsWritten(DisplayText(a)) == Done(Ok(a)) && ParseIpv6(DisplayText(a)) == Ok(a)
  {
    var ws := Words(a);
    DisplaySplit(a);
    JoinedHex(ws);
    FirstPart(ws, false);
    PlacedEmpty(Unspecified, 0);
    AssembledIsAddress(a, 0, 0);
  }

  /** A text made of hex words, "::" and hex words, at most seven words in all. */
  lemma ParseAroundRun(t: string, vs1: seq<nat>, vs2: seq<nat>)
    requires WordsFit(vs1) && WordsFit(vs2) && |vs1| + |vs2| <= 7
    requires Text.SplitDoubleColon(t) == [Text.Join(HexWords(vs1), ':'), Text.Join(HexWords(vs2), ':')]
    ensures ParseIpv6AsWritten(t) == Done(Ok(Placed(Placed(Unspecified, 0, vs1), 8 - |vs2|, vs2)))
    ensures ParseIpv6(t) == Ok(Placed(Placed(Unspecified, 0, vs1), 8 - |vs2|, vs2))
  {
    FirstPart(vs1, true);
    SecondPart(vs2, Placed(Unspecified, 0, vs1), 2 * |vs1|);
  }

  lemma DisplayWithRun(a: Ipv6Address)
    requires ZeroRun(Words(a)).0 < ZeroRun(Words(a)).1
    ensures ParseIpv6AsWritten(DisplayText(a)) == Done(Ok(a)) && ParseIpv6(DisplayText(a)) == Ok(a)
  {
    var ws := Words(a);
    var (st, en) := ZeroRun(ws);
    DisplayRunParts(a, ws, st, en);
    ParseAroundRunIs(DisplayText(a), ws[..st], ws[en..], a);
  }

  /** The words on either side of the run, as `ParseAroundRunIs` needs them. */
  lemma DisplayRunParts(a: Ipv6Address, ws: seq<nat>, st: nat, en: nat)
    requires ws == Words(a) && (st, en) == ZeroRun(ws) && st < en
    ensures en <= 8 && |ws| == 8
    ensures WordsFit(ws[..st]) && WordsFit(ws[en..]) && |ws[..st]| + |ws[en..]| <= 7
    ensures Text.SplitDoubleColon(DisplayText(a)) == [Text.Join(HexWords(ws[..st]), ':'), Text.Join(HexWords(ws[en..]), ':')]
    ensures Placed(Placed(Unspecified, 0, ws[..st]), 8 - |ws[en..]|, ws[en..]) == a
  {
    DisplaySplit(a);
    AssembledIsAddress(a, st, en);
  }

  /** `ParseAroundRun` where the placed words are known to make up `a`. */
  lemma ParseAroundRunIs(t: string, vs1: seq<nat>, vs2: seq<nat>, a: Ipv6Address)
    requires WordsFit(vs1) && WordsFit(vs2) && |vs1| + |vs2| <= 7
    requires Text.SplitDoubleColon(t) == [Text.Join(HexWords(vs1), ':'), Text.Join(HexWords(vs2), ':')]
    requires Placed(Placed(Unspecified, 0, vs1), 8 - |vs2|, vs2) == a
    ensures ParseIpv6AsWritten(t) == Done(Ok(a)) && ParseIpv6(t) == Ok(a)
  {
    ParseAroundRun(t, vs1, vs2);
  }

  /** Parsing the `Display` text, as written or corrected, gives the address back. */
  lemma ParseIpv6Display(a: Ipv6Address)
    ensures ParseIpv6AsWritten(DisplayText(a)) == Done(Ok(a))
    ensures ParseIpv6(DisplayText(a)) == Ok(a)
  {
    if ZeroRun(Words(a)).0 == ZeroRun(Words(a)).1 {
      DisplayWithoutRun(a);
    } else {
      DisplaySplit(a);
      DisplayWithRun(a);
    }
  }

  /** `Ipv6Subnet::from_str` on a displayed address and a decimal prefix length. */
  lemma ParseIpv6SubnetDisplay(a: Ipv6Address, p: nat)
    ensures p <= 128 ==> ParseIpv6Subnet(DisplayText(a) + "/" + Text.Format(p, 10)) == Ok((a, p))
    ensures p > 128 && p <= U32_MAX ==> ParseIpv6Subnet(DisplayText(a) + "/" + Text.Format(p, 10)) == Err(InvalidPrefixLen)
  {
    var d := Text.Format(p, 10);
    ParseIpv6Display(a);
    if p <= U32_MAX {
      Text.FormatRoundTrip(p, 10, U32_MAX);
      Text.DigitTextAvoids(d, {'/'});
      ParseSubnetSlash(DisplayText(a), d, ParseIpv6, 128);
    }
  }

  // ---------------------------------------------------------------------
  // What the parser accepts.
  // ---------------------------------------------------------------------

  lemma {:induction false} ForwardWithMore(words: seq<string>, addr: Ipv6Address, idx: nat)
    requires idx <= 16 && idx % 2 == 0
    ensures ForwardAsWritten(words, addr, idx, true).Stop? ==>
      ForwardAsWritten(words, addr, idx, true).outcome.Done? && ForwardAsWritten(words, addr, idx, true).outcome.result.Err?
    ensures Forward(words, addr, idx, true).Stop? ==> Forward(words, addr, idx, true).outcome.result.Err?
    decreases |words|
  {
    if words != [] && idx < 16 && HexWord(words[0]).Ok? {
      ForwardWithMore(words[1..], SetWord(addr, idx, HexWord(words[0]).value), idx + 2);
    }
  }

  /** A second "::" is always an error. */
  lemma SecondDoubleColonRejected(s: string)
    requires |Text.SplitDoubleColon(s)| >= 3
    ensures ParseIpv6AsWritten(s).Done? && ParseIpv6AsWritten(s).result.Err?
    ensures ParseIpv6(s).Err?
  {
    var parts := Text.SplitDoubleColon(s);
    if parts[0] != [] {
      ForwardWithMore(Text.Split(parts[0], {':'}), Unspecified, 0);
    }
  }

  /**
   * Without "::", a text of hex words is an address exactly when it has
   * eight of them, and then they are its words in order.
   */
  lemma WithoutDoubleColon(s: string)
    requires Text.SplitDoubleColon(s) == [s] && s != [] && AllHex(Text.Split(s, {':'}))
    ensures var words := Text.Split(s, {':'});
      ParseIpv6AsWritten(s) == if |words| == 8 then Done(Ok(Placed(Unspecified, 0, WordValues(words)))) else Done(Err(InvalidLength))
  {
    var words := Text.Split(s, {':'});
    var st := ForwardAsWritten(words, Unspecified, 0, false);
    assert ParseIpv6AsWritten(s) == (match st case Stop(o) => o case Next(a, i) => if i < 16 then Done(Err(InvalidLength)) else Done(Ok(a)));
    ForwardAllHexAsWritten(words, Unspecified, 0, false);
    if |words| <= 8 {
      PlaceFrontIsPlaced(Unspecified, 0, WordValues(words));
    }
  }

  lemma WithoutDoubleColonCorrected(s: string)
    requires Text.SplitDoubleColon(s) == [s] && s != [] && AllHex(Text.Split(s, {':'}))
    ensures var words := Text.Split(s, {':'});
      ParseIpv6(s) == if |words| == 8 then Ok(Placed(Unspecified, 0, WordValues(words))) else Err(InvalidLength)
  {
    var words := Text.Split(s, {':'});
    var st := Forward(words, Unspecified, 0, false);
    assert ParseIpv6(s) == (match st case Stop(o) => o.result case Next(a, i) => if i < 16 then Err(InvalidLength) else Ok(a));
    ForwardAllHexCorrected(words, Unspecified, 0, false);
    if |words| <= 8 {
      PlaceFrontIsPlaced(Unspecified, 0, WordValues(words));
    }
  }

  /**
   * Before "::", a word that is neither hex nor at byte 12 is a parse
   * error: that is the only place an IPv4 tail is taken.
   */
  lemma {:induction false} Ipv4TailOnlyAtTwelve(words: seq<string>, addr: Ipv6Address, idx: nat, more: bool, k: nat)
    requires idx <= 16 && idx % 2 == 0 && k < |words| && idx + 2 * k < 16 && idx + 2 * k != 12
    requires forall j :: 0 <= j < k ==> HexWord(words[j]).Ok?
    requires HexWord(words[k]).Err?
    ensures ForwardAsWritten(words, addr, idx, more) == Stop(Done(Err(ParseInt(HexWord(words[k]).error))))
    ensures Forward(words, addr, idx, more) == Stop(Done(Err(ParseInt(HexWord(words[k]).error))))
    decreases k
  {
    if k > 0 {
      assert HexWord(words[0]).Ok?;
      assert words[1..][k - 1] == words[k];
      assert forall j :: 0 <= j < k - 1 ==> words[1..][j] == words[j + 1];
      Ipv4TailOnlyAtTwelve(words[1..], SetWord(addr, idx, HexWord(words[0]).value), idx + 2, more, k - 1);
    }
  }

  /**
   * After "::", a word that is not hex is a parse error unless it is the
   * last word of the text (bytes 12 to 15).
   */
  lemma {:induction false} Ipv4TailOnlyLast(words: seq<string>, addr: Ipv6Address, idx: int, end: nat, k: nat)
    requires idx <= 15 && idx % 2 == 1 && k < |words| - 1 && idx - 2 * (|words| - 1 - k) >= end
    requires forall j :: k < j < |words| ==> HexWord(words[j]).Ok?
    requires HexWord(words[k]).Err?
    ensures BackwardAsWritten(words, addr, idx, end) == Done(Err(ParseInt(HexWord(words[k]).error)))
    ensures Backward(words, addr, idx, end) == Err(ParseInt(HexWord(words[k]).error))
    decreases |words|
  {
    var n := |words|;
    var init := words[..n - 1];
    assert HexWord(words[n - 1]).Ok?;
    assert init[k] == words[k];
    assert forall j :: k < j < n - 1 ==> init[j] == words[j];
    if k < n - 2 {
      Ipv4TailOnlyLast(init, SetWord(addr, idx - 1, HexWord(words[n - 1]).value), idx - 2, end, k);
    } else {
      assert init[..n - 2] == words[..n - 2];
    }
  }

  // ---------------------------------------------------------------------
  // Where the code as written goes wrong.
  // ---------------------------------------------------------------------

  /** A character that is not a digit of the radix makes the digit loop fail. */
  lemma {:induction false} DigitsRejected(ds: string, radix: nat, max: nat, k: nat)
    requires k < |ds| && Text.DigitValue(ds[k], radix).None?
    ensures Text.Digits(ds, radix, max).Err?
    decreases |ds|
  {
    if k < |ds| - 1 {
      assert ds[..|ds| - 1][k] == ds[k];
      DigitsRejected(ds[..|ds| - 1], radix, max, k);
    }
  }

  /** Dotted IPv4 text is not a hex word, avoids ':' and is not empty. */
  lemma DottedText(v4: Ipv4Addr.Ipv4Address)
    ensures var d := Ipv4Addr.Display(v4);
      HexWord(d).Err? && Text.Avoids(d, {':'}) && |d| >= 1
  {
    var parts := [Text.Format(v4[0], 10), Text.Format(v4[1], 10), Text.Format(v4[2], 10), Text.Format(v4[3], 10)];
    var d := Ipv4Addr.Display(v4);
    forall j | 0 <= j < 4
      ensures Text.DigitText(parts[j]) && Text.Avoids(parts[j], {':'})
    {
      Text.FormatRoundTrip(v4[j], 10, 0xff);
      Text.DigitTextAvoids(parts[j], {':'});
    }
    Text.JoinAvoids(parts, '.', {':'});
    assert d == parts[0] + ['.'] + Text.Join(parts[1..], '.');
    assert d[|parts[0]|] == '.';
    assert d[0] == parts[0][0] && Text.IsDigitChar(d[0]);
    DigitsRejected(d, 16, 0xFFFF, |parts[0]|);
  }

  lemma HexFfff()
    ensures HexWord("ffff") == Ok(0xFFFF)
  {
    assert Text.Format(0xF, 16) == "f";
    assert Text.Format(0xFF, 16) == "ff";
    assert Text.Format(0xFFF, 16) == "fff";
    assert Text.Format(0xFFFF, 16) == "ffff";
    Text.FormatRoundTrip(0xFFFF, 16, 0xFFFF);
  }

  /** "::ffff:" and a dotted IPv4 address, split into its parts. */
  lemma MappedText(v4: Ipv4Addr.Ipv4Address)
    ensures var d := Ipv4Addr.Display(v4);
      Text.SplitDoubleColon("::ffff:" + d) == ["", "ffff:" + d] &&
      Text.Split("ffff:" + d, {':'}) == ["ffff", d]
  {
    var d := Ipv4Addr.Display(v4);
    DottedText(v4);
    var parts := ["ffff", d];
    assert Text.Join(parts, ':') == "ffff:" + d;
    Text.JoinNoDoubleColon(parts);
    Text.SplitJoin(parts, ':', {':'});
    assert "::ffff:" + d == "" + "::" + ("ffff:" + d);
    Text.SplitDoubleColonAfter("", "ffff:" + d);
    Text.SplitDoubleColonNone("ffff:" + d);
  }

  /**
   * The IPv4-mapped text "::ffff:a.b.c.d": the code as written stores the
   * IPv4 address and returns, losing the ffff word; the corrected parser
   * gives the mapped address.
   */
  lemma MappedAsWritten(v4: Ipv4Addr.Ipv4Address)
    ensures ParseIpv6AsWritten("::ffff:" + Ipv4Addr.Display(v4)) == Done(Ok(Unspecified[..12] + v4))
    ensures Unspecified[..12] + v4 != FromIpv4(v4)
  {
    var d := Ipv4Addr.Display(v4);
    MappedText(v4);
    DottedText(v4);
    HexFfff();
    ParseIpv4Display(v4);
    assert (Unspecified[..12] + v4)[10] == 0;
  }

  lemma MappedCorrected(v4: Ipv4Addr.Ipv4Address)
    ensures ParseIpv6("::ffff:" + Ipv4Addr.Display(v4)) == Ok(FromIpv4(v4))
  {
    var d := Ipv4Addr.Display(v4);
    MappedText(v4);
    DottedText(v4);
    HexFfff();
    ParseIpv4Display(v4);
    var x := Unspecified[..12] + v4;
    assert ["ffff", d][..1] == ["ffff"];
    assert Backward(["ffff", d], Unspecified, 15, 0) == Backward(["ffff"], x, 11, 0);
    assert ["ffff"][..0] == [];
    assert Backward(["ffff"], x, 11, 0) == Ok(SetWord(x, 10, 0xFFFF));
    assert SetWord(x, 10, 0xFFFF) == FromIpv4(v4);
  }

  lemma {:induction false} BackwardUnderflow(words: seq<string>, addr: Ipv6Address, idx: int)
    requires idx <= 15 && idx % 2 == 1 && AllHex(words) && |words| >= 1 && idx + 1 == 2 * |words|
    ensures BackwardAsWritten(words, addr, idx, 0) == Overflow
    decreases |words|
  {
    var n := |words|;
    if n > 1 {
      var init := words[..n - 1];
      assert AllHex(init) by {
        forall j | 0 <= j < |init|
          ensures HexWord(init[j]).Ok?
        {
          assert init[j] == words[j];
        }
      }
      BackwardUnderflow(init, SetWord(addr, idx - 1, HexWord(words[n - 1]).value), idx - 2);
    }
  }

  lemma EightWordsText(vs: seq<nat>)
    requires |vs| == 8 && WordsFit(vs)
    ensures var j := Text.Join(HexWords(vs), ':');
      Text.SplitDoubleColon("::" + j) == ["", j] && j != [] && Text.Split(j, {':'}) == HexWords(vs) &&
      AllHex(HexWords(vs)) && WordValues(HexWords(vs)) == vs
  {
    var j := Text.Join(HexWords(vs), ':');
    JoinedHex(vs);
    assert "::" + j == "" + "::" + j;
    Text.SplitDoubleColonAfter("", j);
    Text.SplitDoubleColonNone(j);
  }

  /**
   * Eight words after "::" with nothing before it: as written, the index
   * steps below zero after the last byte is stored (a `usize` underflow).
   */
  lemma EightAfterDoubleColon(vs: seq<nat>)
    requires |vs| == 8 && WordsFit(vs)
    ensures ParseIpv6AsWritten("::" + Text.Join(HexWords(vs), ':')) == Overflow
  {
    EightWordsText(vs);
    BackwardUnderflow(HexWords(vs), Unspecified, 15);
  }

  /** The corrected parser stores all eight words. */
  lemma EightAfterDoubleColonCorrected(vs: seq<nat>)
    requires |vs| == 8 && WordsFit(vs)
    ensures ParseIpv6("::" + Text.Join(HexWords(vs), ':')) == Ok(Placed(Unspecified, 0, vs))
  {
    EightWordsText(vs);
    BackwardAllHex(HexWords(vs), Unspecified, 15, 0);
  }

  lemma HexSmall(k: nat)
    requires k < 16
    ensures Hex(k) == [Text.DigitChar(k)]
  {
  }

  lemma UnderflowExample()
    ensures ParseIpv6AsWritten("::1:2:3:4:5:6:7:8") == Overflow
  {
    EightDigitWords();
    JoinEightDigits();
    EightAfterDoubleColon([1, 2, 3, 4, 5, 6, 7, 8]);
  }

  lemma EightDigitWords()
    ensures HexWords([1, 2, 3, 4, 5, 6, 7, 8]) == ["1", "2", "3", "4", "5", "6", "7", "8"]
  {
    var hs := HexWords([1, 2, 3, 4, 5, 6, 7, 8]);
    forall k | 0 <= k < 8
      ensures hs[k] == [Text.DigitChar(k + 1)]
    {
      HexSmall(k + 1);
    }
  }

  lemma JoinEightDigits()
    ensures Text.Join(["1", "2", "3", "4", "5", "6", "7", "8"], ':') == "1:2:3:4:5:6:7:8"
  {
    var hs := ["1", "2", "3", "4", "5", "6", "7", "8"];
    assert Text.Join(hs[7..], ':') == "8";
    assert Text.Join(hs[6..], ':') == "7:8";
    assert Text.Join(hs[5..], ':') == "6:7:8";
    assert Text.Join(hs[4..], ':') == "5:6:7:8";
    assert Text.Join(hs[3..], ':') == "4:5:6:7:8";
    assert Text.Join(hs[2..], ':') == "3:4:5:6:7:8";
    assert Text.Join(hs[1..], ':') == "2:3:4:5:6:7:8";
  }

  /** Hex words at the front of the text are placed first, then the loop goes on with the rest. */
  lemma ForwardHexPrefix(hs: seq<string>, rest: seq<string>, addr: Ipv6Address, idx: nat, more: bool)
    requires idx % 2 == 0 && idx + 2 * |hs| <= 16 && AllHex(hs)
    ensures ForwardAsWritten(hs + rest, addr, idx, more) ==
      ForwardAsWritten(rest, Placed(addr, idx / 2, WordValues(hs)), idx + 2 * |hs|, more)
    ensures Forward(hs + rest, addr, idx, more) ==
      Forward(rest, Placed(addr, idx / 2, WordValues(hs)), idx + 2 * |hs|, more)
  {
    ForwardHexWordsAsWritten(hs, rest, addr, idx, more);
    ForwardHexWords(hs, rest, addr, idx, more);
    PlaceFrontIsPlaced(addr, idx, WordValues(hs));
  }

  lemma {:induction false} ForwardHexWordsAsWritten(hs: seq<string>, rest: seq<string>, addr: Ipv6Address, idx: nat, more: bool)
    requires idx % 2 == 0 && idx + 2 * |hs| <= 16 && AllHex(hs)
    ensures ForwardAsWritten(hs + rest, addr, idx, more) ==
      ForwardAsWritten(rest, PlaceFront(addr, idx, WordValues(hs)), idx + 2 * |hs|, more)
    decreases |hs|
  {
    if hs == [] {
      assert hs + rest == rest;
    } else {
      HexWordsCons(hs, addr, idx);
      ForwardAsWrittenHexCons(hs, rest, addr, idx, more);
      ForwardHexWordsAsWritten(hs[1..], rest, SetWord(addr, idx, WordValues(hs)[0]), idx + 2, more);
    }
  }

  lemma {:induction false} ForwardHexWords(hs: seq<string>, rest: seq<string>, addr: Ipv6Address, idx: nat, more: bool)
    requires idx % 2 == 0 && idx + 2 * |hs| <= 16 && AllHex(hs)
    ensures Forward(hs + rest, addr, idx, more) ==
      Forward(rest, PlaceFront(addr, idx, WordValues(hs)), idx + 2 * |hs|, more)
    decreases |hs|
  {
    if hs == [] {
      assert hs + rest == rest;
    } else {
      HexWordsCons(hs, addr, idx);
      ForwardHexCons(hs, rest, addr, idx, more);
      ForwardHexWords(hs[1..], rest, SetWord(addr, idx, WordValues(hs)[0]), idx + 2, more);
    }
  }

  /** Placing hexadecimal words from `idx` on is placing the first at `idx` and the rest after it. */
  lemma HexWordsCons(hs: seq<string>, addr: Ipv6Address, idx: nat)
    requires idx % 2 == 0 && idx + 2 * |hs| <= 16 && AllHex(hs) && hs != []
    ensures AllHex(hs[1..]) && idx + 2 + 2 * |hs[1..]| == idx + 2 * |hs|
    ensures PlaceFront(addr, idx, WordValues(hs)) ==
      PlaceFront(SetWord(addr, idx, WordValues(hs)[0]), idx + 2, WordValues(hs[1..]))
  {
    AllHexTail(hs);
  }

  /** The first of the hexadecimal words ahead of `rest` is stored at `idx`. */
  lemma ForwardAsWrittenHexCons(hs: seq<string>, rest: seq<string>, addr: Ipv6Address, idx: nat, more: bool)
    requires idx % 2 == 0 && idx + 2 * |hs| <= 16 && AllHex(hs) && hs != []
    ensures ForwardAsWritten(hs + rest, addr, idx, more) ==
      ForwardAsWritten(hs[1..] + rest, SetWord(addr, idx, WordValues(hs)[0]), idx + 2, more)
  {
    var ws := hs + rest;
    assert ws[0] == hs[0] && ws[1..] == hs[1..] + rest;
    ForwardAsWrittenHexStep(ws, addr, idx, more);
  }

  /** The first of the hexadecimal words ahead of `rest` is stored at `idx`. */
  lemma ForwardHexCons(hs: seq<string>, rest: seq<string>, addr: Ipv6Address, idx: nat, more: bool)
    requires idx % 2 == 0 && idx + 2 * |hs| <= 16 && AllHex(hs) && hs != []
    ensures Forward(hs + rest, addr, idx, more) ==
      Forward(hs[1..] + rest, SetWord(addr, idx, WordValues(hs)[0]), idx + 2, more)
  {
    var ws := hs + rest;
    assert ws[0] == hs[0] && ws[1..] == hs[1..] + rest;
    ForwardHexStep(ws, addr, idx, more);
  }

  /** Six words, a dotted IPv4 address and one more word, with no "::". */
  lemma TrailingText(vs: seq<nat>, v4: Ipv4Addr.Ipv4Address, w: string)
    requires |vs| == 6 && WordsFit(vs) && |w| >= 1 && Text.Avoids(w, {':'})
    ensures var words := HexWords(vs) + [Ipv4Addr.Display(v4), w];
      var t := Text.Join(words, ':');
      t != [] && Text.SplitDoubleColon(t) == [t] && Text.Split(t, {':'}) == words
  {
    var d := Ipv4Addr.Display(v4);
    var words := HexWords(vs) + [d, w];
    JoinedHex(vs);
    DottedText(v4);
    forall j | 0 <= j < |words|
      ensures |words[j]| >= 1 && Text.Avoids(words[j], {':'})
    {
      if j < 6 {
        Text.FormatRoundTrip(vs[j], 16, 0xFFFF);
        Text.DigitTextAvoids(words[j], {':'});
      }
    }
    Text.JoinNoDoubleColon(words);
    Text.SplitDoubleColonNone(Text.Join(words, ':'));
    Text.SplitJoin(words, ':', {':'});
    Text.JoinHead(words);
  }

  /**
   * Before "::", a dotted IPv4 address at byte 12 ends the parse at once,
   * so as written whatever follows it is ignored; the corrected parser
   * rejects it.
   */
  lemma TrailingAfterIpv4(vs: seq<nat>, v4: Ipv4Addr.Ipv4Address, w: string)
    requires |vs| == 6 && WordsFit(vs) && |w| >= 1 && Text.Avoids(w, {':'})
    ensures var t := Text.Join(HexWords(vs) + [Ipv4Addr.Display(v4), w], ':');
      ParseIpv6AsWritten(t) == Done(Ok(Placed(Unspecified, 0, vs)[..12] + v4)) &&
      ParseIpv6(t) == Err(InvalidLength)
  {
    TrailingAsWritten(vs, v4, w);
    TrailingCorrected(vs, v4, w);
  }

  lemma TrailingAsWritten(vs: seq<nat>, v4: Ipv4Addr.Ipv4Address, w: string)
    requires |vs| == 6 && WordsFit(vs) && |w| >= 1 && Text.Avoids(w, {':'})
    ensures ParseIpv6AsWritten(Text.Join(HexWords(vs) + [Ipv4Addr.Display(v4), w], ':')) ==
      Done(Ok(Placed(Unspecified, 0, vs)[..12] + v4))
  {
    TrailingText(vs, v4, w);
    JoinedHex(vs);
    DottedText(v4);
    ParseIpv4Display(v4);
    ForwardHexPrefix(HexWords(vs), [Ipv4Addr.Display(v4), w], Unspecified, 0, false);
  }

  lemma TrailingCorrected(vs: seq<nat>, v4: Ipv4Addr.Ipv4Address, w: string)
    requires |vs| == 6 && WordsFit(vs) && |w| >= 1 && Text.Avoids(w, {':'})
    ensures ParseIpv6(Text.Join(HexWords(vs) + [Ipv4Addr.Display(v4), w], ':')) == Err(InvalidLength)
  {
    TrailingText(vs, v4, w);
    JoinedHex(vs);
    DottedText(v4);
    ParseIpv4Display(v4);
    ForwardHexPrefix(HexWords(vs), [Ipv4Addr.Display(v4), w], Unspecified, 0, false);
  }
}
