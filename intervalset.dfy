/**
 * `IntervalSet`: a set of values stored as a vector of half-open ranges
 * `start..end`, kept sorted, disjoint and non-touching. `find_pos` locates a
 * value by binary search, `affected` finds the ranges an interval overlaps
 * or touches, and `insert`/`remove` edit the vector in place.
 *
 * The element type is modelled as `int`; a panic (an index out of bounds, a
 * `usize` subtraction below zero) is modelled as `None`.
 */
module IntervalSet {
  import opened Wrappers

  datatype Range = Range(start: int, end: int)

  /** Where `find_pos` puts a value relative to the stored ranges. */
  datatype Pos = Below(idx: nat) | Above(idx: nat) | Contains(idx: nat)

  /**
   * What an interval touches: the ranges `first..=last`, or none of them,
   * with the index at which the interval would be stored (`Affected::None`).
   */
  datatype Affected = Ranges(first: nat, last: nat) | Gap(at: nat)

  predicate In(r: Range, v: int)
  {
    r.start <= v < r.end
  }

  /** `v` lies in one of the stored ranges. */
  ghost predicate Covered(rs: seq<Range>, v: int)
  {
    exists i :: 0 <= i < |rs| && In(rs[i], v)
  }

  /** Range `r` ends strictly before range `q` starts. */
  predicate Precedes(r: Range, q: Range)
  {
    r.end < q.start
  }

  /**
   * The representation invariant: every range is non-empty, and each range
   * ends strictly before any later one starts (touching ranges are merged).
   */
  ghost predicate WellFormed(rs: seq<Range>)
  {
    && (forall i :: 0 <= i < |rs| ==> rs[i].start < rs[i].end)
    && (forall i, j {:trigger Precedes(rs[i], rs[j])} :: 0 <= i < j < |rs| ==> Precedes(rs[i], rs[j]))
  }

  /** The interval `a..b` overlaps `r` or touches one of its ends. */
  predicate Touches(r: Range, a: int, b: int)
  {
    r.start <= b && a <= r.end
  }

  // ---------------------------------------------------------------------
  // Coverage of concatenations

  lemma CoveredConcat(x: seq<Range>, y: seq<Range>, v: int)
    ensures Covered(x + y, v) <==> Covered(x, v) || Covered(y, v)
  {
    if Covered(x + y, v) {
      var i :| 0 <= i < |x + y| && In((x + y)[i], v);
      if i < |x| {
        assert In(x[i], v);
      } else {
        assert In(y[i - |x|], v);
      }
    }
    if Covered(x, v) {
      var i :| 0 <= i < |x| && In(x[i], v);
      assert In((x + y)[i], v);
    }
    if Covered(y, v) {
      var i :| 0 <= i < |y| && In(y[i], v);
      assert In((x + y)[|x| + i], v);
    }
  }

  lemma CoveredSingle(r: Range, v: int)
    ensures Covered([r], v) <==> In(r, v)
  {
    if In(r, v) {
      assert In([r][0], v);
    }
  }

  lemma WellFormedConcat(x: seq<Range>, y: seq<Range>)
    requires WellFormed(x) && WellFormed(y)
    requires |x| > 0 && |y| > 0 ==> Precedes(x[|x| - 1], y[0])
    ensures WellFormed(x + y)
  {
    var z := x + y;
    forall i, j | 0 <= i < j < |z|
      ensures Precedes(z[i], z[j])
    {
      if j < |x| {
      } else if i >= |x| {
        assert z[i] == y[i - |x|] && z[j] == y[j - |x|];
      } else {
        assert x[i].end <= x[|x| - 1].end by {
          if i < |x| - 1 {
            assert Precedes(x[i], x[|x| - 1]);
          }
        }
        assert y[0].start <= y[j - |x|].start by {
          if j - |x| > 0 {
            assert Precedes(y[0], y[j - |x|]);
          }
        }
      }
    }
  }

  lemma WellFormedSlice(rs: seq<Range>, i: nat, j: nat)
    requires WellFormed(rs) && i <= j <= |rs|
    ensures WellFormed(rs[i..j])
  {
    var z := rs[i..j];
    assert forall k :: 0 <= k < |z| ==> z[k] == rs[i + k];
  }

  // ---------------------------------------------------------------------
  // find_pos as written

  /**
   * One step of the search loop and the check after it, from index `idx`
   * with step `offset`: the step halves each round, and the search moves
   * down when the range starts above the value and up when it ends at or
   * below it.
   */
  function Probe(rs: seq<Range>, v: int, idx: nat, offset: nat): Option<Pos>
    decreases offset
  {
    if idx >= |rs| then None
    else if offset == 0 then
      if v < rs[idx].start then Some(Below(idx))
      else if v < rs[idx].end then Some(Contains(idx))
      else Some(Above(idx))
    else if rs[idx].start > v then
      if idx < offset then None else Probe(rs, v, idx - offset, offset / 2)
    else if v < rs[idx].end then Some(Contains(idx))
    else Probe(rs, v, idx + offset, offset / 2)
  }

  /** `find_pos` as written: start in the middle with step `(idx + 1) / 2`. */
  function SearchAsWritten(rs: seq<Range>, v: int): (r: Option<Pos>)
    ensures rs == [] ==> r == Some(Above(0))
  {
    if rs == [] then Some(Above(0))
    else Probe(rs, v, |rs| / 2, (|rs| / 2 + 1) / 2)
  }

  /** A reported position tells the truth about the range it names. */
  predicate Truthful(rs: seq<Range>, v: int, p: Option<Pos>)
  {
    match p
    case None => true
    case Some(Contains(i)) => i < |rs| && In(rs[i], v)
    case Some(Below(i)) => i < |rs| && v < rs[i].start
    case Some(Above(i)) => i < |rs| && rs[i].end <= v
  }

  lemma {:induction false} ProbeSound(rs: seq<Range>, v: int, idx: nat, offset: nat)
    ensures Truthful(rs, v, Probe(rs, v, idx, offset))
    decreases offset
  {
    if idx < |rs| && offset != 0 {
      if rs[idx].start > v {
        if idx >= offset {
          ProbeSound(rs, v, idx - offset, offset / 2);
        }
      } else if v >= rs[idx].end {
        ProbeSound(rs, v, idx + offset, offset / 2);
      }
    }
  }

  /**
   * What `find_pos` reports is true of the range it names: `Contains(i)`
   * only when range `i` holds the value, `Below(i)` only when the value is
   * below range `i`, `Above(i)` only when it is at or above range `i`'s end.
   */
  lemma SearchSound(rs: seq<Range>, v: int)
    ensures match SearchAsWritten(rs, v)
            case None => true
            case Some(Contains(i)) => i < |rs| && In(rs[i], v)
            case Some(Below(i)) => i < |rs| && v < rs[i].start
            case Some(Above(i)) => (rs == [] && i == 0) || (i < |rs| && rs[i].end <= v)
  {
    if rs != [] {
      ProbeSound(rs, v, |rs| / 2, (|rs| / 2 + 1) / 2);
    }
  }

  const FOUR: seq<Range> := [Range(0, 1), Range(2, 3), Range(4, 5), Range(6, 7)]

  /**
   * With four ranges the search never visits index 0: the value 0, which
   * the first range holds, is reported below range 1, so `contains(0)` is
   * false.
   */
  lemma SearchMissesFirst()
    ensures WellFormed(FOUR) && Covered(FOUR, 0)
    ensures SearchAsWritten(FOUR, 0) == Some(Below(1))
  {
    assert In(FOUR[0], 0);
  }

  /**
   * With two ranges a value above both moves the index to 2 and the final
   * check indexes past the end of the vector.
   */
  lemma SearchOutOfBounds()
    ensures SearchAsWritten([Range(0, 1), Range(2, 3)], 5) == None
  {
  }

  // ---------------------------------------------------------------------
  // find_pos, corrected: the reference the binary search is proved against

  /** Scan from `i`: the first range that ends above `v` decides. */
  function LocateFrom(rs: seq<Range>, v: int, i: nat): Pos
    requires i <= |rs|
    decreases |rs| - i
  {
    if i == |rs| then (if rs == [] then Above(0) else Above(|rs| - 1))
    else if v < rs[i].start then Below(i)
    else if v < rs[i].end then Contains(i)
    else LocateFrom(rs, v, i + 1)
  }

  /**
   * Where a value lies: in range `i` (`Contains(i)`), in the gap before
   * range `i` (`Below(i)`), or above every range (`Above` of the last
   * index, or `Above(0)` when there are no ranges).
   */
  function Locate(rs: seq<Range>, v: int): Pos
  {
    LocateFrom(rs, v, 0)
  }

  lemma {:induction false} LocateFromResult(rs: seq<Range>, v: int, k: nat)
    requires k <= |rs|
    ensures match LocateFrom(rs, v, k)
            case Contains(i) => k <= i < |rs| && In(rs[i], v)
            case Below(i) => k <= i < |rs| && v < rs[i].start && (i == k || rs[i - 1].end <= v)
            case Above(i) =>
              (rs == [] && i == 0) || (i == |rs| - 1 && (k < |rs| ==> rs[i].end <= v))
    decreases |rs| - k
  {
    if k < |rs| && rs[k].start <= v && rs[k].end <= v {
      LocateFromResult(rs, v, k + 1);
    }
  }

  /** The ranges before `k` all end at or below `v`, so the scan passes them. */
  lemma {:induction false} LocateSkip(rs: seq<Range>, v: int, k: nat)
    requires k <= |rs|
    requires forall i :: 0 <= i < k ==> rs[i].start < rs[i].end <= v
    ensures Locate(rs, v) == LocateFrom(rs, v, k)
  {
    if k > 0 {
      LocateSkip(rs, v, k - 1);
    }
  }

  /** Under the invariant, `Locate` reports `Contains(i)` exactly when range `i` holds `v`. */
  lemma LocateContains(rs: seq<Range>, v: int, i: nat)
    requires WellFormed(rs) && i < |rs|
    ensures Locate(rs, v) == Contains(i) <==> In(rs[i], v)
  {
    LocateFromResult(rs, v, 0);
    if In(rs[i], v) {
      forall k | 0 <= k < i
        ensures rs[k].start < rs[k].end <= v
      {
        assert Precedes(rs[k], rs[i]);
      }
      LocateSkip(rs, v, i);
    }
  }

  /** `Locate` and coverage: `v` is stored iff `Locate` lands on a range. */
  lemma LocateCovered(rs: seq<Range>, v: int)
    requires WellFormed(rs)
    ensures Locate(rs, v).Contains? <==> Covered(rs, v)
  {
    LocateFromResult(rs, v, 0);
    if Covered(rs, v) {
      var i :| 0 <= i < |rs| && In(rs[i], v);
      LocateContains(rs, v, i);
    }
  }

  // ---------------------------------------------------------------------
  // affected, as written

  /** `Affected::Ranges(s, e)`, where `s` or `e` computed by a `usize` subtraction may have gone below zero. */
  function Span(s: int, e: int): Option<Affected>
  {
    if s < 0 || e < 0 then None else Some(Ranges(s, e))
  }

  /** The case analysis of `affected` on the two positions. */
  function Classify(rs: seq<Range>, a: int, b: int, p: Pos, q: Pos): Option<Affected>
  {
    var n := |rs|;
    match p
    case Contains(s) =>
      (match q
       case Contains(e) => Some(Ranges(s, e))
       case Below(e) =>
         if e < n && !(rs[e].start < b) then Some(Ranges(s, e)) else Span(s, e - 1)
       case Above(e) => Some(Ranges(s, e)))
    case Below(s) =>
      (match q
       case Contains(e) =>
         if s == 0 then Some(Ranges(s, e))
         else if s == n then Span(s - 1, e)
         else if s > n then None
         else if b >= rs[s].start then Some(Ranges(s, e))
         else Span(s - 1, e)
       case Below(e) =>
         if s == e then Some(Gap(s))
         else if e >= n then None
         else if b < rs[e].start then Span(s, e - 1)
         else Some(Ranges(s, e))
       case Above(e) =>
         if s != 0 && s >= n then None
         else
           var s' := if s == 0 || b >= rs[s].start then s else s - 1;
           if e + 1 < n && b >= rs[e + 1].start then Some(Ranges(s', e + 1))
           else Some(Ranges(s', e)))
    case Above(s) =>
      (match q
       case Contains(e) =>
         if s >= n then None
         else if a > rs[s].end then Some(Ranges(s + 1, e))
         else Some(Ranges(s, e))
       case Below(e) =>
         if s >= n || e >= n then None
         else
           var s' := if a > rs[s].end then s + 1 else s;
           if b < rs[e].start then Span(s', e - 1) else Some(Ranges(s', e))
       case Above(e) =>
         if s == e then Some(Gap(s))
         else if s >= n then None
         else if a > rs[s].end then Some(Ranges(s + 1, e))
         else Some(Ranges(s, e)))
  }

  /** `affected` as written, on the positions `find_pos` as written reports. */
  function AffectedAsWritten(rs: seq<Range>, a: int, b: int): (r: Option<Affected>)
    ensures rs == [] ==> r == Some(Gap(0))
  {
    match (SearchAsWritten(rs, a), SearchAsWritten(rs, b))
    case (Some(p), Some(q)) => Classify(rs, a, b, p, q)
    case _ => None
  }

  // ---------------------------------------------------------------------
  // affected, intended

  /** How many leading ranges end strictly before `a`. */
  function Before(rs: seq<Range>, a: int): (k: nat)
    ensures k <= |rs|
  {
    if rs == [] || a <= rs[0].end then 0 else 1 + Before(rs[1..], a)
  }

  /** How many leading ranges start at or below `b`. */
  function UpTo(rs: seq<Range>, b: int): (k: nat)
    ensures k <= |rs|
  {
    if rs == [] || b < rs[0].start then 0 else 1 + UpTo(rs[1..], b)
  }

  lemma {:induction false} BeforeMeaning(rs: seq<Range>, a: int)
    requires WellFormed(rs)
    ensures forall i :: 0 <= i < Before(rs, a) ==> rs[i].end < a
    ensures forall i :: Before(rs, a) <= i < |rs| ==> a <= rs[i].end
  {
    if rs != [] {
      if a <= rs[0].end {
        forall i | 0 < i < |rs|
          ensures a <= rs[i].end
        {
          assert Precedes(rs[0], rs[i]);
        }
      } else {
        WellFormedSlice(rs, 1, |rs|);
        BeforeMeaning(rs[1..], a);
        assert forall i :: 1 <= i < |rs| ==> rs[i] == rs[1..][i - 1];
      }
    }
  }

  lemma {:induction false} UpToMeaning(rs: seq<Range>, b: int)
    requires WellFormed(rs)
    ensures forall i :: 0 <= i < UpTo(rs, b) ==> rs[i].start <= b
    ensures forall i :: UpTo(rs, b) <= i < |rs| ==> b < rs[i].start
  {
    if rs != [] {
      if b < rs[0].start {
        forall i | 0 < i < |rs|
          ensures b < rs[i].start
        {
          assert Precedes(rs[0], rs[i]);
        }
      } else {
        WellFormedSlice(rs, 1, |rs|);
        UpToMeaning(rs[1..], b);
        assert forall i :: 1 <= i < |rs| ==> rs[i] == rs[1..][i - 1];
      }
    }
  }

  lemma BeforeIs(rs: seq<Range>, a: int, k: nat)
    requires WellFormed(rs) && k <= |rs|
    requires forall i :: 0 <= i < k ==> rs[i].end < a
    requires forall i :: k <= i < |rs| ==> a <= rs[i].end
    ensures Before(rs, a) == k
  {
    BeforeMeaning(rs, a);
    var m := Before(rs, a);
    if m < |rs| {
      assert a <= rs[m].end;
    }
    if k < |rs| {
      assert a <= rs[k].end;
    }
  }

  lemma UpToIs(rs: seq<Range>, b: int, k: nat)
    requires WellFormed(rs) && k <= |rs|
    requires forall i :: 0 <= i < k ==> rs[i].start <= b
    requires forall i :: k <= i < |rs| ==> b < rs[i].start
    ensures UpTo(rs, b) == k
  {
    UpToMeaning(rs, b);
    var m := UpTo(rs, b);
    if m < |rs| {
      assert b < rs[m].start;
    }
    if k < |rs| {
      assert b < rs[k].start;
    }
  }

  /**
   * The ranges `a..b` overlaps or touches: from the first range that does
   * not end before `a` to the last range that does not start after `b`.
   */
  function AffectedIntended(rs: seq<Range>, a: int, b: int): Affected
  {
    var s := Before(rs, a);
    var t := UpTo(rs, b);
    if s < t then Ranges(s, t - 1) else Gap(s)
  }

  /**
   * `Ranges(s, e)` names exactly the ranges the interval touches; `Gap(s)`
   * means it touches none, and every range before `s` lies below it and
   * every range from `s` on lies above it.
   */
  lemma AffectedMeaning(rs: seq<Range>, a: int, b: int)
    requires WellFormed(rs) && a < b
    ensures match AffectedIntended(rs, a, b)
            case Ranges(s, e) =>
              && s <= e < |rs|
              && (forall i :: 0 <= i < |rs| ==> (Touches(rs[i], a, b) <==> s <= i <= e))
            case Gap(s) =>
              && s <= |rs|
              && (forall i :: 0 <= i < s ==> rs[i].end < a)
              && (forall i :: s <= i < |rs| ==> b < rs[i].start)
  {
    BeforeMeaning(rs, a);
    UpToMeaning(rs, b);
    var s := Before(rs, a);
    var t := UpTo(rs, b);
    if t < |rs| {
      assert b < rs[t].start && rs[t].start < rs[t].end;
    }
    assert s <= t;
  }

  lemma AffectedBounds(rs: seq<Range>, a: int, b: int)
    requires WellFormed(rs) && a < b
    ensures match AffectedIntended(rs, a, b)
            case Ranges(s, e) => s <= e < |rs|
            case Gap(s) => s <= |rs|
  {
    AffectedMeaning(rs, a, b);
  }

  /**
   * `affected` as written names range `e` when the interval's end lies in
   * the gap before it (line 75 tests the wrong way round): with ranges
   * 0..2, 4..6, 8..10 the interval 5..7 is reported to reach 8..10.
   */
  lemma AffectedOverreaches()
    ensures AffectedAsWritten([Range(0, 2), Range(4, 6), Range(8, 10)], 5, 7) == Some(Ranges(1, 2))
    ensures AffectedIntended([Range(0, 2), Range(4, 6), Range(8, 10)], 5, 7) == Ranges(1, 1)
  {
  }

  /**
   * An interval above the last range gets the index of that range, not the
   * one after it, so `insert` puts it in front: with the one range 0..1,
   * the interval 5..6 is stored at index 0.
   */
  lemma AffectedMisplacesAbove()
    ensures AffectedAsWritten([Range(0, 1)], 5, 6) == Some(Gap(0))
    ensures AffectedIntended([Range(0, 1)], 5, 6) == Gap(1)
  {
  }

  // ---------------------------------------------------------------------
  // insert and remove, as specified on values

  function Min(x: int, y: int): int { if x <= y then x else y }
  function Max(x: int, y: int): int { if x <= y then y else x }

  /**
   * The ranges after inserting `a..b`: a new range in the gap, or range `s`
   * widened to cover the interval and ranges `s..=e`, with `s+1..=e`
   * dropped.
   */
  function InsertResult(rs: seq<Range>, a: int, b: int): seq<Range>
  {
    match AffectedIntended(rs, a, b)
    case Gap(i) => if i <= |rs| then rs[..i] + [Range(a, b)] + rs[i..] else rs
    case Ranges(s, e) =>
      if s <= e < |rs| then rs[..s] + [Range(Min(a, rs[s].start), Max(b, rs[e].end))] + rs[e + 1..]
      else rs
  }

  /** What is left of range `r` below `a` and above `b`. */
  function LeftPart(r: Range, a: int): seq<Range>
  {
    if r.start < a then [Range(r.start, a)] else []
  }

  function RightPart(r: Range, b: int): seq<Range>
  {
    if b < r.end then [Range(b, r.end)] else []
  }

  /** What is left of the first touched range below `a` and of the last above `b`. */
  function Remnants(first: Range, last: Range, a: int, b: int): seq<Range>
  {
    LeftPart(first, a) + RightPart(last, b)
  }

  /**
   * The ranges after removing `a..b`: the touched ranges `s..=e` are
   * replaced by what is left of range `s` below `a` and of range `e` above
   * `b`.
   */
  function RemoveResult(rs: seq<Range>, a: int, b: int): seq<Range>
  {
    match AffectedIntended(rs, a, b)
    case Gap(_) => rs
    case Ranges(s, e) =>
      if s <= e < |rs| then rs[..s] + Remnants(rs[s], rs[e], a, b) + rs[e + 1..]
      else rs
  }

  /** Inserting into an empty set stores exactly that interval. */
  lemma InsertIntoEmpty(a: int, b: int)
    requires a < b
    ensures InsertResult([], a, b) == [Range(a, b)]
  {
  }

  /** The widened range covers the touched ranges, the interval and the gaps between them. */
  lemma MergedCovers(rs: seq<Range>, a: int, b: int, s: nat, e: nat, v: int)
    requires WellFormed(rs) && a < b && s <= e < |rs|
    requires forall i :: 0 <= i < |rs| ==> (Touches(rs[i], a, b) <==> s <= i <= e)
    ensures In(Range(Min(a, rs[s].start), Max(b, rs[e].end)), v)
        <==> Covered(rs[s..e + 1], v) || a <= v < b
  {
    var span := rs[s..e + 1];
    assert Touches(rs[s], a, b) && Touches(rs[e], a, b);
    if Covered(span, v) {
      var k :| 0 <= k < |span| && In(span[k], v);
      assert span[k] == rs[s + k];
      if k > 0 {
        assert Precedes(rs[s], rs[s + k]);
      }
      if s + k < e {
        assert Precedes(rs[s + k], rs[e]);
      }
    }
    if In(Range(Min(a, rs[s].start), Max(b, rs[e].end)), v) && !(a <= v < b) {
      if v < a {
        assert In(span[0], v);
      } else {
        assert In(span[e - s], v);
      }
    }
  }

  /** The merged range sits strictly between its neighbours. */
  lemma MergedFits(rs: seq<Range>, a: int, b: int, s: nat, e: nat)
    requires WellFormed(rs) && a < b && s <= e < |rs|
    requires forall i :: 0 <= i < |rs| ==> (Touches(rs[i], a, b) <==> s <= i <= e)
    ensures WellFormed(rs[..s] + [Range(Min(a, rs[s].start), Max(b, rs[e].end))] + rs[e + 1..])
  {
    var m := Range(Min(a, rs[s].start), Max(b, rs[e].end));
    WellFormedSlice(rs, 0, s);
    WellFormedSlice(rs, e + 1, |rs|);
    if s > 0 {
      assert !Touches(rs[s - 1], a, b);
      assert Precedes(rs[s - 1], rs[s]);
    }
    WellFormedConcat(rs[..s], [m]);
    if e + 1 < |rs| {
      assert !Touches(rs[e + 1], a, b);
      assert Precedes(rs[e], rs[e + 1]);
    }
    WellFormedConcat(rs[..s] + [m], rs[e + 1..]);
  }

  /** A new range in the gap at `i`. */
  lemma InsertGap(rs: seq<Range>, a: int, b: int, i: nat)
    requires WellFormed(rs) && a < b && i <= |rs|
    requires forall k :: 0 <= k < i ==> rs[k].end < a
    requires forall k :: i <= k < |rs| ==> b < rs[k].start
    ensures WellFormed(rs[..i] + [Range(a, b)] + rs[i..])
    ensures forall v :: Covered(rs[..i] + [Range(a, b)] + rs[i..], v) <==> Covered(rs, v) || a <= v < b
  {
    WellFormedSlice(rs, 0, i);
    WellFormedSlice(rs, i, |rs|);
    WellFormedConcat(rs[..i], [Range(a, b)]);
    WellFormedConcat(rs[..i] + [Range(a, b)], rs[i..]);
    forall v
      ensures Covered(rs[..i] + [Range(a, b)] + rs[i..], v) <==> Covered(rs, v) || a <= v < b
    {
      CoveredConcat(rs[..i] + [Range(a, b)], rs[i..], v);
      CoveredConcat(rs[..i], [Range(a, b)], v);
      CoveredSingle(Range(a, b), v);
      CoveredConcat(rs[..i], rs[i..], v);
      assert rs[..i] + rs[i..] == rs;
    }
  }

  /** Range `s` widened over `s..=e`, the rest dropped. */
  lemma InsertMerge(rs: seq<Range>, a: int, b: int, s: nat, e: nat)
    requires WellFormed(rs) && a < b && s <= e < |rs|
    requires forall i :: 0 <= i < |rs| ==> (Touches(rs[i], a, b) <==> s <= i <= e)
    ensures forall v :: Covered(rs[..s] + [Range(Min(a, rs[s].start), Max(b, rs[e].end))] + rs[e + 1..], v)
                    <==> Covered(rs, v) || a <= v < b
  {
    var m := Range(Min(a, rs[s].start), Max(b, rs[e].end));
    assert rs[..s] + rs[s..e + 1] + rs[e + 1..] == rs;
    forall v
      ensures Covered(rs[..s] + [m] + rs[e + 1..], v) <==> Covered(rs, v) || a <= v < b
    {
      CoveredConcat(rs[..s] + [m], rs[e + 1..], v);
      CoveredConcat(rs[..s], [m], v);
      CoveredSingle(m, v);
      MergedCovers(rs, a, b, s, e, v);
      CoveredConcat(rs[..s] + rs[s..e + 1], rs[e + 1..], v);
      CoveredConcat(rs[..s], rs[s..e + 1], v);
    }
  }

  /**
   * Inserting keeps the invariant, and afterwards exactly the values that
   * were stored or lie in `a..b` are stored.
   */
  lemma InsertMeaning(rs: seq<Range>, a: int, b: int)
    requires WellFormed(rs) && a < b
    ensures WellFormed(InsertResult(rs, a, b))
    ensures forall v :: Covered(InsertResult(rs, a, b), v) <==> Covered(rs, v) || a <= v < b
  {
    AffectedMeaning(rs, a, b);
    var af := AffectedIntended(rs, a, b);
    if af.Gap? {
      var i := af.at;
      assert InsertResult(rs, a, b) == rs[..i] + [Range(a, b)] + rs[i..];
      InsertGap(rs, a, b, i);
    } else {
      var s, e := af.first, af.last;
      assert InsertResult(rs, a, b)
          == rs[..s] + [Range(Min(a, rs[s].start), Max(b, rs[e].end))] + rs[e + 1..];
      MergedFits(rs, a, b, s, e);
      InsertMerge(rs, a, b, s, e);
    }
  }

  /** The pieces left of the touched ranges cover what they covered outside `a..b`. */
  lemma PartsCover(rs: seq<Range>, a: int, b: int, s: nat, e: nat, v: int)
    requires WellFormed(rs) && a < b && s <= e < |rs|
    requires forall i :: 0 <= i < |rs| ==> (Touches(rs[i], a, b) <==> s <= i <= e)
    ensures Covered(Remnants(rs[s], rs[e], a, b), v)
        <==> Covered(rs[s..e + 1], v) && !(a <= v < b)
  {
    var span := rs[s..e + 1];
    CoveredConcat(LeftPart(rs[s], a), RightPart(rs[e], b), v);
    if rs[s].start < a {
      CoveredSingle(Range(rs[s].start, a), v);
    }
    if b < rs[e].end {
      CoveredSingle(Range(b, rs[e].end), v);
    }
    assert Touches(rs[s], a, b) && Touches(rs[e], a, b);
    if Covered(span, v) && !(a <= v < b) {
      var k :| 0 <= k < |span| && In(span[k], v);
      assert span[k] == rs[s + k];
      if k > 0 {
        assert Precedes(rs[s], rs[s + k]);
      }
      if s + k < e {
        assert Precedes(rs[s + k], rs[e]);
      }
    }
    if rs[s].start < a && In(Range(rs[s].start, a), v) {
      assert In(span[0], v);
    }
    if b < rs[e].end && In(Range(b, rs[e].end), v) {
      assert In(span[e - s], v);
    }
  }

  /** Three well-formed runs in order make a well-formed run. */
  lemma WellFormedBetween(x: seq<Range>, m: seq<Range>, y: seq<Range>)
    requires WellFormed(x) && WellFormed(m) && WellFormed(y)
    requires x != [] && m != [] ==> Precedes(x[|x| - 1], m[0])
    requires m != [] && y != [] ==> Precedes(m[|m| - 1], y[0])
    requires x != [] && y != [] ==> Precedes(x[|x| - 1], y[0])
    ensures WellFormed(x + m + y)
  {
    WellFormedConcat(x, m);
    if m != [] {
      assert (x + m)[|x + m| - 1] == m[|m| - 1];
    } else {
      assert x + m == x;
    }
    WellFormedConcat(x + m, y);
  }

  /** The remnants are well formed and sit strictly between the untouched ranges. */
  lemma RemnantsFit(rs: seq<Range>, a: int, b: int, s: nat, e: nat)
    requires WellFormed(rs) && a < b && s <= e < |rs|
    requires forall i :: 0 <= i < |rs| ==> (Touches(rs[i], a, b) <==> s <= i <= e)
    ensures WellFormed(Remnants(rs[s], rs[e], a, b))
    ensures var m := Remnants(rs[s], rs[e], a, b);
            && (m != [] && s > 0 ==> Precedes(rs[s - 1], m[0]))
            && (m != [] && e + 1 < |rs| ==> Precedes(m[|m| - 1], rs[e + 1]))
  {
    WellFormedConcat(LeftPart(rs[s], a), RightPart(rs[e], b));
    if s > 0 {
      assert !Touches(rs[s - 1], a, b);
      assert Precedes(rs[s - 1], rs[s]);
    }
    if e + 1 < |rs| {
      assert !Touches(rs[e + 1], a, b);
      assert Precedes(rs[e], rs[e + 1]);
    }
  }

  lemma PartsFit(rs: seq<Range>, a: int, b: int, s: nat, e: nat)
    requires WellFormed(rs) && a < b && s <= e < |rs|
    requires forall i :: 0 <= i < |rs| ==> (Touches(rs[i], a, b) <==> s <= i <= e)
    ensures WellFormed(rs[..s] + Remnants(rs[s], rs[e], a, b) + rs[e + 1..])
  {
    WellFormedSlice(rs, 0, s);
    WellFormedSlice(rs, e + 1, |rs|);
    RemnantsFit(rs, a, b, s, e);
    if s > 0 && e + 1 < |rs| {
      assert Precedes(rs[s - 1], rs[e + 1]);
    }
    WellFormedBetween(rs[..s], Remnants(rs[s], rs[e], a, b), rs[e + 1..]);
  }

  /**
   * Removing keeps the invariant, and afterwards exactly the values that
   * were stored and lie outside `a..b` are stored.
   */
  lemma RemoveMeaning(rs: seq<Range>, a: int, b: int)
    requires WellFormed(rs) && a < b
    ensures WellFormed(RemoveResult(rs, a, b))
    ensures forall v :: Covered(RemoveResult(rs, a, b), v) <==> Covered(rs, v) && !(a <= v < b)
  {
    match AffectedIntended(rs, a, b)
    case Gap(i) => RemoveInGap(rs, a, b, i);
    case Ranges(s, e) => RemoveRanges(rs, a, b, s, e);
  }

  lemma RemoveInGap(rs: seq<Range>, a: int, b: int, i: nat)
    requires WellFormed(rs) && a < b && AffectedIntended(rs, a, b) == Gap(i)
    ensures RemoveResult(rs, a, b) == rs
    ensures forall v :: Covered(rs, v) ==> !(a <= v < b)
  {
    AffectedMeaning(rs, a, b);
    RemoveNothing(rs, a, b, i);
  }

  lemma RemoveRanges(rs: seq<Range>, a: int, b: int, s: nat, e: nat)
    requires WellFormed(rs) && a < b && AffectedIntended(rs, a, b) == Ranges(s, e)
    ensures WellFormed(RemoveResult(rs, a, b))
    ensures forall v :: Covered(RemoveResult(rs, a, b), v) <==> Covered(rs, v) && !(a <= v < b)
  {
    AffectedMeaning(rs, a, b);
    assert RemoveResult(rs, a, b) == rs[..s] + Remnants(rs[s], rs[e], a, b) + rs[e + 1..];
    PartsFit(rs, a, b, s, e);
    RemoveSpan(rs, a, b, s, e);
  }

  /** An interval in a gap holds no stored value. */
  lemma RemoveNothing(rs: seq<Range>, a: int, b: int, i: nat)
    requires WellFormed(rs) && a < b && i <= |rs|
    requires forall k :: 0 <= k < i ==> rs[k].end < a
    requires forall k :: i <= k < |rs| ==> b < rs[k].start
    ensures forall v :: Covered(rs, v) ==> !(a <= v < b)
  {
    forall v | Covered(rs, v)
      ensures !(a <= v < b)
    {
      var k :| 0 <= k < |rs| && In(rs[k], v);
    }
  }

  /** The touched ranges `s..=e` replaced by their remnants. */
  lemma RemoveSpan(rs: seq<Range>, a: int, b: int, s: nat, e: nat)
    requires WellFormed(rs) && a < b && s <= e < |rs|
    requires forall i :: 0 <= i < |rs| ==> (Touches(rs[i], a, b) <==> s <= i <= e)
    ensures forall v :: Covered(rs[..s] + Remnants(rs[s], rs[e], a, b) + rs[e + 1..], v)
                    <==> Covered(rs, v) && !(a <= v < b)
  {
    var mid := Remnants(rs[s], rs[e], a, b);
    assert rs[..s] + rs[s..e + 1] + rs[e + 1..] == rs;
    forall v
      ensures Covered(rs[..s] + mid + rs[e + 1..], v) <==> Covered(rs, v) && !(a <= v < b)
    {
      CoveredConcat(rs[..s] + mid, rs[e + 1..], v);
      CoveredConcat(rs[..s], mid, v);
      PartsCover(rs, a, b, s, e, v);
      CoveredConcat(rs[..s] + rs[s..e + 1], rs[e + 1..], v);
      CoveredConcat(rs[..s], rs[s..e + 1], v);
      OutsideUntouched(rs, a, b, s, e, v);
    }
  }

  /** Values in the untouched ranges lie outside the interval. */
  lemma OutsideUntouched(rs: seq<Range>, a: int, b: int, s: nat, e: nat, v: int)
    requires WellFormed(rs) && a < b && s <= e < |rs|
    requires forall i :: 0 <= i < |rs| ==> (Touches(rs[i], a, b) <==> s <= i <= e)
    ensures Covered(rs[..s], v) || Covered(rs[e + 1..], v) ==> !(a <= v < b)
  {
    if Covered(rs[..s], v) {
      var k :| 0 <= k < s && In(rs[..s][k], v);
      assert !Touches(rs[k], a, b);
      assert Precedes(rs[k], rs[s]);
    }
    if Covered(rs[e + 1..], v) {
      var k :| 0 <= k < |rs| - e - 1 && In(rs[e + 1..][k], v);
      assert !Touches(rs[e + 1 + k], a, b);
      assert Precedes(rs[e], rs[e + 1 + k]);
    }
  }

  /** Removing an interval strictly inside one range splits it in two. */
  lemma RemoveSplits(rs: seq<Range>, i: nat, a: int, b: int)
    requires WellFormed(rs) && i < |rs| && rs[i].start < a < b < rs[i].end
    ensures RemoveResult(rs, a, b)
         == rs[..i] + [Range(rs[i].start, a), Range(b, rs[i].end)] + rs[i + 1..]
  {
    AffectedMeaning(rs, a, b);
    assert Touches(rs[i], a, b);
    assert AffectedIntended(rs, a, b) == Ranges(i, i) by {
      var af := AffectedIntended(rs, a, b);
      if 0 < i {
        assert Precedes(rs[i - 1], rs[i]);
      }
      if i + 1 < |rs| {
        assert Precedes(rs[i], rs[i + 1]);
      }
    }
    assert Remnants(rs[i], rs[i], a, b) == [Range(rs[i].start, a), Range(b, rs[i].end)];
  }

  // ---------------------------------------------------------------------
  // The shift loop shared by insert and remove

  /** What the shift loop as written leaves: it moves at most `hi - lo` ranges down. */
  function CollapsedAsWritten(rs: seq<Range>, lo: nat, hi: nat): seq<Range>
    requires lo <= hi <= |rs|
  {
    rs[..lo] + rs[hi..hi + Min(hi - lo, |rs| - hi)]
  }

  /**
   * The loop as written drops `lo..hi` correctly only when no more than
   * `hi - lo` ranges follow; otherwise it loses the last ones.
   */
  lemma CollapseAsWrittenLoses(rs: seq<Range>, lo: nat, hi: nat)
    requires lo <= hi <= |rs|
    ensures CollapsedAsWritten(rs, lo, hi) == rs[..lo] + rs[hi..] <==> |rs| - hi <= hi - lo
  {
    if |rs| - hi > hi - lo {
      assert |CollapsedAsWritten(rs, lo, hi)| < |rs[..lo] + rs[hi..]|;
    } else {
      assert hi + Min(hi - lo, |rs| - hi) == |rs|;
    }
  }

  // ---------------------------------------------------------------------
  // remove's general case, as written

  /**
   * Lines 238-253 of `remove` as written, for `s + 1 < e`: the edits to
   * ranges `s` and `e` and the bounds of the ranges to drop.
   */
  function RemoveSpanAsWritten(rs: seq<Range>, s: nat, e: nat, a: int, b: int): (seq<Range>, nat, nat)
    requires s < e < |rs|
  {
    if rs[s].start < a then
      if b < rs[e].end then (rs, s, e + 1)
      else (rs[e := Range(b, rs[e].end)], s, e)
    else
      var rs' := rs[s := Range(rs[s].start, a)];
      if b < rs[e].end then (rs', s + 1, e + 1)
      else (rs'[e := Range(b, rs'[e].end)], s + 1, e)
  }

  const THREE: seq<Range> := [Range(0, 4), Range(5, 6), Range(7, 10)]

  /**
   * Both comparisons of the general case are the wrong way round: removing
   * 2..8 from 0..4, 5..6, 7..10 drops every range, where 0..2 and 8..10
   * should stay.
   */
  lemma RemoveSpanErases()
    ensures AffectedIntended(THREE, 2, 8) == Ranges(0, 2)
    ensures RemoveSpanAsWritten(THREE, 0, 2, 2, 8) == (THREE, 0, 3)
    ensures CollapsedAsWritten(THREE, 0, 3) == []
    ensures RemoveResult(THREE, 2, 8) == [Range(0, 2), Range(8, 10)]
  {
  }

  // ---------------------------------------------------------------------
  // From positions to the touched ranges

  /**
   * How many ranges end before `a`, read off where `Locate` puts `a`: a
   * value in a gap or above every range also reaches the range just below
   * it when it equals that range's end.
   */
  lemma BeforeAt(rs: seq<Range>, a: int)
    requires WellFormed(rs)
    ensures match Locate(rs, a)
            case Contains(i) => Before(rs, a) == i
            case Below(i) =>
              i < |rs| && Before(rs, a) == (if i > 0 && rs[i - 1].end == a then i - 1 else i)
            case Above(i) =>
              (rs == [] && Before(rs, a) == 0)
              || (i == |rs| - 1 && Before(rs, a) == (if rs[i].end == a then i else |rs|))
  {
    LocateFromResult(rs, a, 0);
    match Locate(rs, a)
    case Contains(i) =>
      forall k | 0 <= k < |rs|
        ensures k < i ==> rs[k].end < a
        ensures i <= k ==> a <= rs[k].end
      {
        if k < i {
          assert Precedes(rs[k], rs[i]);
        } else if i < k {
          assert Precedes(rs[i], rs[k]);
        }
      }
      BeforeIs(rs, a, i);
    case Below(i) =>
      var s := if i > 0 && rs[i - 1].end == a then i - 1 else i;
      forall k | 0 <= k < |rs|
        ensures k < s ==> rs[k].end < a
        ensures s <= k ==> a <= rs[k].end
      {
        if k + 1 < i {
          assert Precedes(rs[k], rs[i - 1]);
        } else if i < k {
          assert Precedes(rs[i], rs[k]);
        }
      }
      BeforeIs(rs, a, s);
    case Above(i) =>
      if rs != [] {
        var s := if rs[i].end == a then i else |rs|;
        forall k | 0 <= k < |rs|
          ensures k < s ==> rs[k].end < a
          ensures s <= k ==> a <= rs[k].end
        {
          if k < i {
            assert Precedes(rs[k], rs[i]);
          }
        }
        BeforeIs(rs, a, s);
      }
  }

  /** How many ranges start at or below `b`, read off where `Locate` puts `b`. */
  lemma UpToAt(rs: seq<Range>, b: int)
    requires WellFormed(rs)
    ensures match Locate(rs, b)
            case Contains(j) => UpTo(rs, b) == j + 1
            case Below(j) => UpTo(rs, b) == j
            case Above(_) => UpTo(rs, b) == |rs|
  {
    LocateFromResult(rs, b, 0);
    match Locate(rs, b)
    case Contains(j) =>
      forall k | 0 <= k < |rs|
        ensures k <= j ==> rs[k].start <= b
        ensures j < k ==> b < rs[k].start
      {
        if k < j {
          assert Precedes(rs[k], rs[j]);
        } else if j < k {
          assert Precedes(rs[j], rs[k]);
        }
      }
      UpToIs(rs, b, j + 1);
    case Below(j) =>
      forall k | 0 <= k < |rs|
        ensures k < j ==> rs[k].start <= b
        ensures j <= k ==> b < rs[k].start
      {
        if k + 1 < j {
          assert Precedes(rs[k], rs[j - 1]);
        } else if j < k {
          assert Precedes(rs[j], rs[k]);
        }
      }
      UpToIs(rs, b, j);
    case Above(i) =>
      forall k | 0 <= k < |rs|
        ensures rs[k].start <= b
      {
        if k < i {
          assert Precedes(rs[k], rs[i]);
        }
      }
      UpToIs(rs, b, |rs|);
  }

  /** The first range's start is the least stored value. */
  lemma LeastStored(rs: seq<Range>)
    requires WellFormed(rs) && rs != []
    ensures Covered(rs, rs[0].start)
    ensures forall v :: Covered(rs, v) ==> rs[0].start <= v
  {
    assert In(rs[0], rs[0].start);
    forall v | Covered(rs, v)
      ensures rs[0].start <= v
    {
      var i :| 0 <= i < |rs| && In(rs[i], v);
      if i > 0 {
        assert Precedes(rs[0], rs[i]);
      }
    }
  }

  /** The last range's end is one past the greatest stored value. */
  lemma GreatestStored(rs: seq<Range>)
    requires WellFormed(rs) && rs != []
    ensures Covered(rs, rs[|rs| - 1].end - 1)
    ensures forall v :: Covered(rs, v) ==> v < rs[|rs| - 1].end
  {
    var n := |rs|;
    assert In(rs[n - 1], rs[n - 1].end - 1);
    forall v | Covered(rs, v)
      ensures v < rs[n - 1].end
    {
      var i :| 0 <= i < n && In(rs[i], v);
      if i < n - 1 {
        assert Precedes(rs[i], rs[n - 1]);
      }
    }
  }

  // ---------------------------------------------------------------------
  // The set, updated in place

  class IntervalSet {
    var ranges: seq<Range>

    ghost predicate Valid()
      reads this
    {
      WellFormed(ranges)
    }

    /** `new`: the empty set. */
    constructor ()
      ensures ranges == [] && Valid()
    {
      ranges := [];
    }

    /** `is_empty`: no value is stored. */
    function IsEmpty(): (r: bool)
      reads this
      requires Valid()
      ensures r <==> ranges == []
      ensures r <==> forall v :: !Covered(ranges, v)
    {
      if ranges == [] then true
      else
        LeastStored(ranges);
        false
    }

    /** `min_inclusive`: the least stored value. */
    function MinInclusive(): (r: Option<int>)
      reads this
      requires Valid()
      ensures r == None <==> ranges == []
      ensures r.Some? ==> Covered(ranges, r.value) && forall v :: Covered(ranges, v) ==> r.value <= v
    {
      if ranges == [] then None
      else
        LeastStored(ranges);
        Some(ranges[0].start)
    }

    /** `max_exclusive`: one past the greatest stored value. */
    function MaxExclusive(): (r: Option<int>)
      reads this
      requires Valid()
      ensures r == None <==> ranges == []
      ensures r.Some? ==> Covered(ranges, r.value - 1) && forall v :: Covered(ranges, v) ==> v < r.value
    {
      if ranges == [] then None
      else
        GreatestStored(ranges);
        Some(ranges[|ranges| - 1].end)
    }

    /** `clear`: the set becomes empty. */
    method Clear()
      modifies this
      ensures ranges == [] && Valid()
    {
      ranges := [];
    }

    /** `find_pos` as written; `None` where it panics. */
    method FindPosAsWritten(v: int) returns (r: Option<Pos>)
      ensures r == SearchAsWritten(ranges, v)
    {
      if ranges == [] {
        return Some(Above(0));
      }
      var idx: nat := |ranges| / 2;
      var offset: nat := (idx + 1) / 2;
      while offset != 0
        invariant Probe(ranges, v, idx, offset) == SearchAsWritten(ranges, v)
        decreases offset
      {
        if idx >= |ranges| {
          return None;
        }
        if ranges[idx].start > v {
          if idx < offset {
            return None;
          }
          idx := idx - offset;
        } else if v < ranges[idx].end {
          return Some(Pos.Contains(idx));
        } else {
          idx := idx + offset;
        }
        offset := offset / 2;
      }
      if idx >= |ranges| {
        return None;
      }
      if v < ranges[idx].start {
        r := Some(Below(idx));
      } else if v < ranges[idx].end {
        r := Some(Pos.Contains(idx));
      } else {
        r := Some(Above(idx));
      }
    }

    /**
     * `find_pos`, corrected: a binary search that keeps the ranges below
     * `lo` ending at or below `v` and those from `hi` on starting above it.
     */
    method FindPos(v: int) returns (p: Pos)
      requires Valid()
      ensures p == Locate(ranges, v)
    {
      var lo, hi := 0, |ranges|;
      while lo < hi
        invariant 0 <= lo <= hi <= |ranges|
        invariant forall i :: 0 <= i < lo ==> ranges[i].end <= v
        invariant forall i :: hi <= i < |ranges| ==> v < ranges[i].start
        decreases hi - lo
      {
        var mid := (lo + hi) / 2;
        if v < ranges[mid].start {
          forall i | mid < i < hi
            ensures v < ranges[i].start
          {
            assert Precedes(ranges[mid], ranges[i]);
          }
          hi := mid;
        } else if v < ranges[mid].end {
          LocateContains(ranges, v, mid);
          return Pos.Contains(mid);
        } else {
          forall i | lo <= i < mid
            ensures ranges[i].end <= v
          {
            assert Precedes(ranges[i], ranges[mid]);
          }
          lo := mid + 1;
        }
      }
      LocateSkip(ranges, v, lo);
      if lo < |ranges| {
        p := Below(lo);
      } else if ranges == [] {
        p := Above(0);
      } else {
        p := Above(|ranges| - 1);
      }
    }

    /** `contains`: the value is stored. */
    method Contains(v: int) returns (b: bool)
      requires Valid()
      ensures b <==> Covered(ranges, v)
    {
      var p := FindPos(v);
      LocateCovered(ranges, v);
      b := p.Contains?;
    }

    /** `affected`: which ranges `a..b` overlaps or touches, from the positions of its ends. */
    method AffectedRanges(a: int, b: int) returns (af: Affected)
      requires Valid() && a < b
      ensures af == AffectedIntended(ranges, a, b)
    {
      var p := FindPos(a);
      var q := FindPos(b);
      BeforeAt(ranges, a);
      UpToAt(ranges, b);
      var s: nat;
      match p {
        case Contains(i) =>
          s := i;
        case Below(i) =>
          s := if i > 0 && ranges[i - 1].end == a then i - 1 else i;
        case Above(i) =>
          s := if ranges != [] && ranges[i].end == a then i else |ranges|;
      }
      var t: nat;
      match q {
        case Contains(j) =>
          t := j + 1;
        case Below(j) =>
          t := j;
        case Above(_) =>
          t := |ranges|;
      }
      if s < t {
        af := Ranges(s, t - 1);
      } else {
        af := Gap(s);
      }
    }

    /**
     * The loop shared by `insert` and `remove`, corrected: move every range
     * from `hi` on down to `lo`, then truncate, dropping `lo..hi`.
     */
    method Collapse(lo: nat, hi: nat)
      requires lo <= hi <= |ranges|
      modifies this
      ensures ranges == old(ranges)[..lo] + old(ranges)[hi..]
    {
      ghost var rs := ranges;
      var i := 0;
      while hi + i < |ranges|
        invariant Shifted(ranges, rs, lo, hi, i)
        decreases |rs| - hi - i
      {
        ShiftStep(ranges, rs, lo, hi, i);
        ranges := ranges[lo + i := ranges[hi + i]][hi + i := ranges[lo + i]];
        i := i + 1;
      }
      ShiftedPrefix(ranges, rs, lo, hi, i);
      ranges := ranges[..lo + i];
      assert rs[hi..hi + i] == rs[hi..];
    }

    /** The same loop as written: it also stops once `hi - lo` ranges have moved. */
    method CollapseAsWritten(lo: nat, hi: nat)
      requires lo <= hi <= |ranges|
      modifies this
      ensures ranges == CollapsedAsWritten(old(ranges), lo, hi)
    {
      ghost var rs := ranges;
      var i := 0;
      while lo + i < hi && hi + i < |ranges|
        invariant i <= hi - lo && Shifted(ranges, rs, lo, hi, i)
        decreases |rs| - hi - i
      {
        ShiftStep(ranges, rs, lo, hi, i);
        ranges := ranges[lo + i := ranges[hi + i]][hi + i := ranges[lo + i]];
        i := i + 1;
      }
      ShiftedPrefix(ranges, rs, lo, hi, i);
      ranges := ranges[..lo + i];
    }

    /**
     * `insert`: widen the first touched range over the interval and the
     * other touched ranges and drop those, or store the interval in the gap.
     */
    method Insert(a: int, b: int)
      requires Valid() && a < b
      modifies this
      ensures ranges == InsertResult(old(ranges), a, b)
      ensures Valid()
      ensures forall v :: Covered(ranges, v) <==> Covered(old(ranges), v) || a <= v < b
    {
      ghost var rs := ranges;
      var af := AffectedRanges(a, b);
      AffectedBounds(rs, a, b);
      match af {
        case Ranges(s, e) =>
          // Range `s` is written in place: its start, then its end.
          var widened := ranges[s];
          if a < widened.start {
            widened := widened.(start := a);
          }
          if ranges[e].end < b {
            widened := widened.(end := b);
          } else {
            widened := widened.(end := ranges[e].end);
          }
          ranges := ranges[s := widened];
          if s != e {
            Collapse(s + 1, e + 1);
          } else {
            assert ranges == ranges[..s + 1] + ranges[e + 1..];
          }
          Widened(rs, s, e, widened);
          InsertIntoRanges(rs, a, b, s, e, widened);
        case Gap(i) =>
          InsertIntoGap(rs, a, b, i);
          if i == |ranges| {
            ranges := ranges + [Range(a, b)];
            assert rs[i..] == [];
          } else {
            ranges := ranges[..i] + [Range(a, b)] + ranges[i..];
          }
      }
      InsertMeaning(rs, a, b);
    }

    /**
     * `remove`: cut `a..b` out of the touched ranges `s..=e`, keeping what
     * lies below `a` in range `s` and above `b` in range `e`.
     */
    method Remove(a: int, b: int)
      requires Valid() && a < b
      modifies this
      ensures ranges == RemoveResult(old(ranges), a, b)
      ensures Valid()
      ensures forall v :: Covered(ranges, v) <==> Covered(old(ranges), v) && !(a <= v < b)
    {
      ghost var rs := ranges;
      var af := AffectedRanges(a, b);
      AffectedBounds(rs, a, b);
      if af.Ranges? {
        var s, e := af.first, af.last;
        if s == e {
          RemoveWithin(s, a, b);
        } else if s + 1 == e {
          RemoveAcross(s, a, b);
        } else {
          RemoveSpanning(s, e, a, b);
        }
      }
      RemoveMeaning(rs, a, b);
    }

    /** `remove` with one touched range: trim it, split it or remove it. */
    method RemoveWithin(s: nat, a: int, b: int)
      requires s < |ranges| && a < b
      modifies this
      ensures ranges == old(ranges)[..s] + Remnants(old(ranges)[s], old(ranges)[s], a, b) + old(ranges)[s + 1..]
    {
      RemoveOne(ranges, s, a, b);
      if ranges[s].start < a {
        if b < ranges[s].end {
          var right := Range(b, ranges[s].end);
          if s + 1 < |ranges| {
            ranges := ranges[..s + 1] + [right] + ranges[s + 1..];
          } else {
            ranges := ranges + [right];
          }
          ranges := ranges[s := Range(ranges[s].start, a)];
        } else {
          ranges := ranges[s := Range(ranges[s].start, a)];
        }
      } else if b < ranges[s].end {
        ranges := ranges[s := Range(b, ranges[s].end)];
      } else {
        ranges := ranges[..s] + ranges[s + 1..];
      }
    }

    /** `remove` with two touched ranges: trim or remove each. */
    method RemoveAcross(s: nat, a: int, b: int)
      requires s + 1 < |ranges| && a < b
      modifies this
      ensures ranges == old(ranges)[..s] + Remnants(old(ranges)[s], old(ranges)[s + 1], a, b) + old(ranges)[s + 2..]
    {
      var e := s + 1;
      RemoveTwo(ranges, s, a, b);
      if ranges[s].start < a {
        ranges := ranges[s := Range(ranges[s].start, a)];
        if b < ranges[e].end {
          ranges := ranges[e := Range(b, ranges[e].end)];
        } else {
          ranges := ranges[..e] + ranges[e + 1..];
        }
      } else {
        if b < ranges[e].end {
          ranges := ranges[e := Range(b, ranges[e].end)];
        } else {
          ranges := ranges[..e] + ranges[e + 1..];
        }
        ranges := ranges[..s] + ranges[s + 1..];
      }
    }

    /**
     * `remove` with three or more touched ranges, corrected: range `s` goes
     * when it starts inside the interval and range `e` when it ends inside
     * it, otherwise they are trimmed; the shift loop drops the rest.
     */
    method RemoveSpanning(s: nat, e: nat, a: int, b: int)
      requires s + 1 < e < |ranges| && a < b
      modifies this
      ensures ranges == old(ranges)[..s] + Remnants(old(ranges)[s], old(ranges)[e], a, b) + old(ranges)[e + 1..]
    {
      ghost var rs := ranges;
      var lo, hi;
      if a <= ranges[s].start {
        if ranges[e].end <= b {
          lo, hi := s, e + 1;
        } else {
          ranges := ranges[e := Range(b, ranges[e].end)];
          lo, hi := s, e;
        }
      } else {
        ranges := ranges[s := Range(ranges[s].start, a)];
        if ranges[e].end <= b {
          lo, hi := s + 1, e + 1;
        } else {
          ranges := ranges[e := Range(b, ranges[e].end)];
          lo, hi := s + 1, e;
        }
      }
      RemoveMany(rs, s, e, a, b, ranges, lo, hi);
      Collapse(lo, hi);
    }
  }

  /** Range `s` replaced by `m`, then `s+1..=e` dropped. */
  lemma InsertIntoRanges(rs: seq<Range>, a: int, b: int, s: nat, e: nat, m: Range)
    requires AffectedIntended(rs, a, b) == Ranges(s, e) && s <= e < |rs|
    requires m == Range(if a < rs[s].start then a else rs[s].start, if rs[e].end < b then b else rs[e].end)
    ensures InsertResult(rs, a, b) == rs[..s] + [m] + rs[e + 1..]
  {
  }

  lemma InsertIntoGap(rs: seq<Range>, a: int, b: int, i: nat)
    requires AffectedIntended(rs, a, b) == Gap(i) && i <= |rs|
    ensures InsertResult(rs, a, b) == rs[..i] + [Range(a, b)] + rs[i..]
  {
  }

  lemma Widened(rs: seq<Range>, s: nat, e: nat, m: Range)
    requires s <= e < |rs|
    ensures rs[s := m][..s + 1] + rs[s := m][e + 1..] == rs[..s] + [m] + rs[e + 1..]
  {
    assert rs[s := m][..s + 1] == rs[..s] + [m];
  }

  /** The four outcomes of `remove` on one touched range. */
  lemma RemoveOne(rs: seq<Range>, s: nat, a: int, b: int)
    requires s < |rs| && a < b
    ensures var rem := Remnants(rs[s], rs[s], a, b);
            && (rs[s].start < a && b < rs[s].end ==>
                  (rs[..s + 1] + [Range(b, rs[s].end)] + rs[s + 1..])[s := Range(rs[s].start, a)]
                  == rs[..s] + rem + rs[s + 1..])
            && (rs[s].start < a && rs[s].end <= b ==>
                  rs[s := Range(rs[s].start, a)] == rs[..s] + rem + rs[s + 1..])
            && (a <= rs[s].start && b < rs[s].end ==>
                  rs[s := Range(b, rs[s].end)] == rs[..s] + rem + rs[s + 1..])
            && (a <= rs[s].start && rs[s].end <= b ==>
                  rs[..s] + rs[s + 1..] == rs[..s] + rem + rs[s + 1..])
  {
    if rs[s].start < a && b < rs[s].end {
      var x := rs[..s + 1] + [Range(b, rs[s].end)] + rs[s + 1..];
      assert x[s := Range(rs[s].start, a)]
          == rs[..s] + [Range(rs[s].start, a), Range(b, rs[s].end)] + rs[s + 1..];
    }
    if rs[s].start < a && rs[s].end <= b {
      assert rs[s := Range(rs[s].start, a)] == rs[..s] + [Range(rs[s].start, a)] + rs[s + 1..];
    }
    if a <= rs[s].start && b < rs[s].end {
      assert rs[s := Range(b, rs[s].end)] == rs[..s] + [Range(b, rs[s].end)] + rs[s + 1..];
    }
  }

  /** The four outcomes of `remove` on two touched ranges `s` and `s + 1`. */
  lemma RemoveTwo(rs: seq<Range>, s: nat, a: int, b: int)
    requires s + 1 < |rs| && a < b
    ensures var e := s + 1;
            var rem := Remnants(rs[s], rs[e], a, b);
            var l := rs[s := Range(rs[s].start, a)];
            var r := rs[e := Range(b, rs[e].end)];
            && (rs[s].start < a && b < rs[e].end ==>
                  l[e := Range(b, rs[e].end)] == rs[..s] + rem + rs[e + 1..])
            && (rs[s].start < a && rs[e].end <= b ==>
                  l[..e] + l[e + 1..] == rs[..s] + rem + rs[e + 1..])
            && (a <= rs[s].start && b < rs[e].end ==>
                  r[..s] + r[s + 1..] == rs[..s] + rem + rs[e + 1..])
            && (a <= rs[s].start && rs[e].end <= b ==>
                  var d := rs[..e] + rs[e + 1..];
                  d[..s] + d[s + 1..] == rs[..s] + rem + rs[e + 1..])
  {
    var e := s + 1;
    if rs[s].start < a && b < rs[e].end {
      assert rs[s := Range(rs[s].start, a)][e := Range(b, rs[e].end)]
          == rs[..s] + [Range(rs[s].start, a), Range(b, rs[e].end)] + rs[e + 1..];
    }
    if rs[s].start < a && rs[e].end <= b {
      var l := rs[s := Range(rs[s].start, a)];
      assert l[..e] + l[e + 1..] == rs[..s] + [Range(rs[s].start, a)] + rs[e + 1..];
    }
    if a <= rs[s].start && b < rs[e].end {
      var r := rs[e := Range(b, rs[e].end)];
      assert r[..s] + r[s + 1..] == rs[..s] + [Range(b, rs[e].end)] + rs[e + 1..];
    }
    if a <= rs[s].start && rs[e].end <= b {
      var d := rs[..e] + rs[e + 1..];
      assert d[..s] + d[s + 1..] == rs[..s] + rs[e + 1..];
    }
  }

  /**
   * The general case of `remove`, corrected: after trimming, dropping
   * `lo..hi` leaves the remnants in place of `s..=e`.
   */
  lemma RemoveMany(rs: seq<Range>, s: nat, e: nat, a: int, b: int, cur: seq<Range>, lo: nat, hi: nat)
    requires s + 1 < e < |rs| && a < b
    requires a <= rs[s].start && rs[e].end <= b ==> cur == rs && lo == s && hi == e + 1
    requires a <= rs[s].start && b < rs[e].end ==>
               cur == rs[e := Range(b, rs[e].end)] && lo == s && hi == e
    requires rs[s].start < a && rs[e].end <= b ==>
               cur == rs[s := Range(rs[s].start, a)] && lo == s + 1 && hi == e + 1
    requires rs[s].start < a && b < rs[e].end ==>
               cur == rs[s := Range(rs[s].start, a)][e := Range(b, rs[e].end)] && lo == s + 1 && hi == e
    ensures lo <= hi <= |cur|
    ensures cur[..lo] + cur[hi..] == rs[..s] + Remnants(rs[s], rs[e], a, b) + rs[e + 1..]
  {
    if a <= rs[s].start && rs[e].end <= b {
      assert Remnants(rs[s], rs[e], a, b) == [];
    } else if a <= rs[s].start {
      KeepLast(rs, s, e, a, b, cur);
    } else if rs[e].end <= b {
      KeepFirst(rs, s, e, a, b, cur);
    } else {
      KeepBoth(rs, s, e, a, b, cur);
    }
  }

  lemma KeepLast(rs: seq<Range>, s: nat, e: nat, a: int, b: int, cur: seq<Range>)
    requires s < e < |rs| && a <= rs[s].start && b < rs[e].end
    requires cur == rs[e := Range(b, rs[e].end)]
    ensures cur[..s] + cur[e..] == rs[..s] + Remnants(rs[s], rs[e], a, b) + rs[e + 1..]
  {
    assert Remnants(rs[s], rs[e], a, b) == [Range(b, rs[e].end)];
    assert cur[e..] == [Range(b, rs[e].end)] + rs[e + 1..];
  }

  lemma KeepFirst(rs: seq<Range>, s: nat, e: nat, a: int, b: int, cur: seq<Range>)
    requires s < e < |rs| && rs[s].start < a && rs[e].end <= b
    requires cur == rs[s := Range(rs[s].start, a)]
    ensures cur[..s + 1] + cur[e + 1..] == rs[..s] + Remnants(rs[s], rs[e], a, b) + rs[e + 1..]
  {
    assert Remnants(rs[s], rs[e], a, b) == [Range(rs[s].start, a)];
    assert cur[..s + 1] == rs[..s] + [Range(rs[s].start, a)];
  }

  lemma KeepBoth(rs: seq<Range>, s: nat, e: nat, a: int, b: int, cur: seq<Range>)
    requires s < e < |rs| && rs[s].start < a && b < rs[e].end
    requires cur == rs[s := Range(rs[s].start, a)][e := Range(b, rs[e].end)]
    ensures cur[..s + 1] + cur[e..] == rs[..s] + Remnants(rs[s], rs[e], a, b) + rs[e + 1..]
  {
    var x, y := Range(rs[s].start, a), Range(b, rs[e].end);
    assert Remnants(rs[s], rs[e], a, b) == [x, y];
    assert cur[..s + 1] == rs[..s] + [x];
    assert cur[e..] == [y] + rs[e + 1..];
  }

  /**
   * After `i` rounds of the shift loop on `rs`: the ranges below `lo` are
   * untouched, `lo..lo + i` hold the ranges moved down from `hi..hi + i`, and
   * the ranges from `hi + i` on have not been touched yet.
   */
  ghost predicate Shifted(cur: seq<Range>, rs: seq<Range>, lo: nat, hi: nat, i: nat)
  {
    && lo <= hi && hi + i <= |rs| && |cur| == |rs|
    && cur[..lo] == rs[..lo]
    && cur[lo..lo + i] == rs[hi..hi + i]
    && cur[hi + i..] == rs[hi + i..]
  }

  /** One swap of the shift loop moves range `hi + i` down to `lo + i`. */
  lemma ShiftStep(cur: seq<Range>, rs: seq<Range>, lo: nat, hi: nat, i: nat)
    requires Shifted(cur, rs, lo, hi, i) && hi + i < |rs|
    ensures Shifted(cur[lo + i := cur[hi + i]][hi + i := cur[lo + i]], rs, lo, hi, i + 1)
  {
    var next := cur[lo + i := cur[hi + i]][hi + i := cur[lo + i]];
    assert cur[hi + i] == cur[hi + i..][0] == rs[hi + i];
    assert next[..lo] == cur[..lo];
    assert next[lo..lo + i + 1] == cur[lo..lo + i] + [rs[hi + i]];
    assert rs[hi..hi + i + 1] == rs[hi..hi + i] + [rs[hi + i]];
    assert next[hi + i + 1..] == cur[hi + i..][1..];
  }

  lemma ShiftedPrefix(cur: seq<Range>, rs: seq<Range>, lo: nat, hi: nat, i: nat)
    requires Shifted(cur, rs, lo, hi, i)
    ensures cur[..lo + i] == rs[..lo] + rs[hi..hi + i]
  {
    assert cur[..lo + i] == cur[..lo] + cur[lo..lo + i];
  }
}
