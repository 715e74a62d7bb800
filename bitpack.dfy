/**
 * Packing of unsigned bit fields into one integer (`BitPack`). A pair
 * `(l, r)` of widths `lw` and `rw` packs into an integer of width `lw + rw`
 * with `l` in the most significant bits; longer tuples pack their tail first
 * and then pair the head with it; a one-element tuple packs as its field.
 */
module BitPack {
  import opened Bits

  /**
   * The packed pair: `r` in the low `rw` bits and `l` above it. The source
   * computes it as a shift and an OR; PackPairIsShiftOr shows the two agree.
   */
  function PackPair(l: nat, r: nat, lw: nat, rw: nat): nat
  {
    Shl(l, rw) + r
  }

  /** The unpacked pair: the bits above the low `rw` masked to `lw`, and the low `rw` bits. */
  function UnpackPair(p: nat, lw: nat, rw: nat): (nat, nat)
  {
    (Shr(p, rw) % Pow2(lw), p % Pow2(rw))
  }

  /** ORing a value into the cleared low bits of a shifted value adds it. */
  lemma {:induction false} OrShifted(l: nat, r: nat, k: nat, w: nat)
    requires r < Pow2(k) && k <= w && l * Pow2(k) < Pow2(w)
    ensures Or(l * Pow2(k), r, w) == l * Pow2(k) + r
  {
    if k == 0 {
      OrZero(l, w);
    } else {
      var x := l * Pow2(k);
      assert x == 2 * (l * Pow2(k - 1));
      assert x / 2 == l * Pow2(k - 1) && x % 2 == 0;
      assert l * Pow2(k - 1) < Pow2(w - 1);
      OrShifted(l, r / 2, k - 1, w - 1);
    }
  }

  /** ANDing with the low `k` ones keeps the value modulo 2^k. */
  lemma {:induction false} AndLowOnes(a: nat, k: nat, w: nat)
    requires k <= w
    ensures And(a, LowOnes(k), w) == a % Pow2(k)
  {
    if k == 0 {
      AndZeroRight(a, w);
    } else {
      assert LowOnes(k) / 2 == LowOnes(k - 1) && LowOnes(k) % 2 == 1;
      AndLowOnes(a / 2, k - 1, w - 1);
      HalfMod(a, k);
    }
  }

  lemma {:induction false} AndZeroRight(a: nat, w: nat)
    ensures And(a, 0, w) == 0
  {
    if w > 0 {
      AndZeroRight(a / 2, w - 1);
    }
  }

  /**
   * `(O::from(l) << R::BITS) | O::from(r)` for in-range fields is the packed
   * pair, and it fits the `lw + rw` bits of the output type.
   */
  lemma PackPairIsShiftOr(l: nat, r: nat, lw: nat, rw: nat)
    requires l < Pow2(lw) && r < Pow2(rw)
    ensures Or(Shl(l, rw), r, lw + rw) == PackPair(l, r, lw, rw) == l * Pow2(rw) + r
    ensures PackPair(l, r, lw, rw) < Pow2(lw + rw)
  {
    var P := Pow2(rw);
    Pow2Add(lw, rw);
    MulMonotone(P, l, Pow2(lw) - 1);
    MulDistributes(P, Pow2(lw), -1);
    assert l * P + r < Pow2(lw) * P;
    OrShifted(l, r, rw, lw + rw);
  }

  /**
   * `((p >> R::BITS) & L::MAX, p & R::MAX)` is the unpacked pair, and each
   * component is masked to its declared width whatever the input.
   */
  lemma UnpackPairIsShiftAnd(p: nat, lw: nat, rw: nat)
    ensures UnpackPair(p, lw, rw) == (And(Shr(p, rw), LowOnes(lw), lw + rw), And(p, LowOnes(rw), lw + rw))
    ensures UnpackPair(p, lw, rw).0 < Pow2(lw) && UnpackPair(p, lw, rw).1 < Pow2(rw)
  {
    AndLowOnes(Shr(p, rw), lw, lw + rw);
    AndLowOnes(p, rw, lw + rw);
  }

  /** unpack(pack((l, r))) == (l, r) for fields within their widths. */
  lemma UnpackPackPair(l: nat, r: nat, lw: nat, rw: nat)
    requires l < Pow2(lw) && r < Pow2(rw)
    ensures UnpackPair(PackPair(l, r, lw, rw), lw, rw) == (l, r)
  {
    var p := PackPair(l, r, lw, rw);
    assert Shr(p, rw) == l && p % Pow2(rw) == r by {
      DivModUnique(p, Pow2(rw), l, r);
    }
    DivModUnique(l, Pow2(lw), 0, l);
  }

  /** pack(unpack(p)) == p for every p that fits the packed width. */
  lemma PackUnpackPair(p: nat, lw: nat, rw: nat)
    requires p < Pow2(lw + rw)
    ensures PackPair(UnpackPair(p, lw, rw).0, UnpackPair(p, lw, rw).1, lw, rw) == p
  {
    var P, L := Pow2(rw), Pow2(lw);
    var q, r := p / P, p % P;
    assert p == P * q + r;
    Pow2Add(lw, rw);
    assert p < P * L;
    QuotientBelow(p, P, L);
    ModBelow(q, L);
    assert UnpackPair(p, lw, rw) == (q, r);
  }

  // ---------------------------------------------------------------------
  // Tuples: `(v,)` packs as `v`; `(v1, v2, .., vn)` packs as
  // `(v1, (v2, .., vn).pack()).pack()`.
  // ---------------------------------------------------------------------

  function Sum(ws: seq<nat>): nat
  {
    if ws == [] then 0 else ws[0] + Sum(ws[1..])
  }

  predicate Fits(fields: seq<nat>, widths: seq<nat>)
  {
    |fields| == |widths| && forall i :: 0 <= i < |fields| ==> fields[i] < Pow2(widths[i])
  }

  function PackTuple(fields: seq<nat>, widths: seq<nat>): nat
    requires |fields| == |widths| >= 1
  {
    if |fields| == 1 then fields[0]
    else PackPair(fields[0], PackTuple(fields[1..], widths[1..]), widths[0], Sum(widths[1..]))
  }

  function UnpackTuple(p: nat, widths: seq<nat>): (fields: seq<nat>)
    requires |widths| >= 1
    ensures |fields| == |widths|
    decreases |widths|
  {
    if |widths| == 1 then [p]
    else
      var (v1, tmp) := UnpackPair(p, widths[0], Sum(widths[1..]));
      [v1] + UnpackTuple(tmp, widths[1..])
  }

  /** A tuple of in-range fields packs into the sum of their widths. */
  lemma {:induction false} PackTupleBound(fields: seq<nat>, widths: seq<nat>)
    requires |fields| == |widths| >= 1 && Fits(fields, widths)
    ensures PackTuple(fields, widths) < Pow2(Sum(widths))
  {
    if |fields| == 1 {
      assert Sum(widths) == widths[0] + Sum(widths[1..]);
    } else {
      assert Fits(fields[1..], widths[1..]);
      PackTupleBound(fields[1..], widths[1..]);
      PackPairIsShiftOr(fields[0], PackTuple(fields[1..], widths[1..]), widths[0], Sum(widths[1..]));
    }
  }

  /** Unpacking a packed tuple gives every field back. */
  lemma {:induction false} UnpackPackTuple(fields: seq<nat>, widths: seq<nat>)
    requires |fields| == |widths| >= 1 && Fits(fields, widths)
    ensures UnpackTuple(PackTuple(fields, widths), widths) == fields
  {
    if |fields| > 1 {
      assert Fits(fields[1..], widths[1..]);
      PackTupleBound(fields[1..], widths[1..]);
      UnpackPackPair(fields[0], PackTuple(fields[1..], widths[1..]), widths[0], Sum(widths[1..]));
      UnpackPackTuple(fields[1..], widths[1..]);
      assert fields == [fields[0]] + fields[1..];
    }
  }

  /** Unpacked fields fit their widths, and packing them again gives the input back. */
  lemma {:induction false} PackUnpackTuple(p: nat, widths: seq<nat>)
    requires |widths| >= 1 && p < Pow2(Sum(widths))
    ensures Fits(UnpackTuple(p, widths), widths)
    ensures PackTuple(UnpackTuple(p, widths), widths) == p
    decreases |widths|
  {
    var fields := UnpackTuple(p, widths);
    if |widths| == 1 {
      assert Sum(widths) == widths[0] + Sum(widths[1..]);
    } else {
      var rest := Sum(widths[1..]);
      assert Sum(widths) == widths[0] + rest;
      var pair := UnpackPair(p, widths[0], rest);
      UnpackPairIsShiftAnd(p, widths[0], rest);
      var tail := UnpackTuple(pair.1, widths[1..]);
      assert fields == [pair.0] + tail;
      PackUnpackTuple(pair.1, widths[1..]);
      FitsCons(pair.0, tail, widths);
      assert fields[1..] == tail;
      assert PackTuple(fields, widths) == PackPair(pair.0, pair.1, widths[0], rest);
      PackUnpackPair(p, widths[0], rest);
    }
  }

  lemma FitsCons(f: nat, fs: seq<nat>, widths: seq<nat>)
    requires |widths| >= 1 && f < Pow2(widths[0]) && Fits(fs, widths[1..])
    ensures Fits([f] + fs, widths)
  {
    var fields := [f] + fs;
    forall i | 0 <= i < |fields|
      ensures fields[i] < Pow2(widths[i])
    {
      if i > 0 {
        assert fields[i] == fs[i - 1] && widths[i] == widths[1..][i - 1];
      }
    }
  }
}
