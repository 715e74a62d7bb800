/**
 * The `bytes!` hex-literal parser: hexadecimal digits are read two at a time
 * into bytes, high nibble first. Whitespace, '-', ':' and '_' are skipped,
 * '#' starts a comment that runs to the end of the line, any other character
 * is an error, and so is an odd number of digits. (The source reports both
 * errors by panicking at macro-expansion time.)
 */
module HexLiteral {
  import opened Bits
  import opened Wrappers

  datatype Panic = ExpectedHexDigit | OddDigitCount

  /** `char::is_whitespace`: the Unicode White_Space characters. */
  predicate IsWhitespace(c: char)
  {
    c == ' ' || ('\t' <= c <= '\r') || c == '\U{85}' || c == '\U{A0}' || c == '\U{1680}' ||
    ('\U{2000}' <= c <= '\U{200A}') || c == '\U{2028}' || c == '\U{2029}' ||
    c == '\U{202F}' || c == '\U{205F}' || c == '\U{3000}'
  }

  /** `char::to_digit(16)`. */
  function HexDigit(c: char): (d: Option<nat>)
    ensures d.Some? ==> d.value < 16
  {
    if '0' <= c <= '9' then Some(c as int - '0' as int)
    else if 'a' <= c <= 'f' then Some(c as int - 'a' as int + 10)
    else if 'A' <= c <= 'F' then Some(c as int - 'A' as int + 10)
    else None
  }

  /** Where the scan stands: inside a comment or not, and the digits read so far. */
  datatype Scan = Scan(comment: bool, digits: seq<nat>)

  predicate AllDigits(ds: seq<nat>)
  {
    forall i :: 0 <= i < |ds| ==> ds[i] < 16
  }

  /** One character of input; None when it is neither skipped nor a hex digit. */
  function Step(s: Option<Scan>, c: char): Option<Scan>
  {
    match s
    case None => None
    case Some(st) =>
      if st.comment then Some(Scan(c != '\n', st.digits))
      else if IsWhitespace(c) || c == '-' || c == ':' || c == '_' then s
      else if c == '#' then Some(Scan(true, st.digits))
      else match HexDigit(c)
        case None => None
        case Some(d) => Some(Scan(false, st.digits + [d]))
  }

  function ScanFrom(s: Option<Scan>, input: seq<char>): Option<Scan>
    decreases |input|
  {
    if input == [] then s else ScanFrom(Step(s, input[0]), input[1..])
  }

  const Start: Option<Scan> := Some(Scan(false, []))

  /** Consecutive digit pairs as bytes, high nibble first. */
  function Pairs(ds: seq<nat>): (bs: seq<u8>)
    requires |ds| % 2 == 0 && AllDigits(ds)
    ensures |bs| == |ds| / 2
    decreases |ds|
  {
    if ds == [] then [] else [ds[0] * 16 + ds[1]] + Pairs(ds[2..])
  }

  /** What `bytes!` expands to for an input string, or how it panics. */
  function Parse(input: seq<char>): Result<seq<u8>, Panic>
  {
    match ScanFrom(Start, input)
    case None => Err(ExpectedHexDigit)
    case Some(st) =>
      ScanDigits(Start, input);
      if |st.digits| % 2 == 1 then Err(OddDigitCount) else Ok(Pairs(st.digits))
  }

  lemma {:induction false} ScanAppend(s: Option<Scan>, a: seq<char>, b: seq<char>)
    ensures ScanFrom(s, a + b) == ScanFrom(ScanFrom(s, a), b)
    decreases |a|
  {
    if a == [] {
      assert a + b == b;
    } else {
      assert (a + b)[1..] == a[1..] + b;
      ScanAppend(Step(s, a[0]), a[1..], b);
    }
  }

  lemma {:induction false} ScanDigits(s: Option<Scan>, input: seq<char>)
    requires s.Some? ==> AllDigits(s.value.digits)
    ensures ScanFrom(s, input).Some? ==> AllDigits(ScanFrom(s, input).value.digits)
    decreases |input|
  {
    if input != [] {
      ScanDigits(Step(s, input[0]), input[1..]);
    }
  }

  lemma DigitsSnoc(ds: seq<nat>, d: nat)
    requires AllDigits(ds) && d < 16
    ensures AllDigits(ds + [d])
  {
    assert forall i :: 0 <= i < |ds| ==> (ds + [d])[i] == ds[i];
  }

  lemma {:induction false} PairsAppend(ds: seq<nat>, x: nat, y: nat)
    requires |ds| % 2 == 0 && AllDigits(ds) && x < 16 && y < 16
    ensures AllDigits(ds + [x, y])
    ensures Pairs(ds + [x, y]) == Pairs(ds) + [x * 16 + y]
    decreases |ds|
  {
    if ds != [] {
      assert (ds + [x, y])[2..] == ds[2..] + [x, y];
      PairsAppend(ds[2..], x, y);
    }
  }

  lemma DigitsConcat(ds: seq<nat>, es: seq<nat>)
    requires AllDigits(ds) && AllDigits(es)
    ensures AllDigits(ds + es)
  {
    forall i | 0 <= i < |ds + es|
      ensures (ds + es)[i] < 16
    {
      if i < |ds| {
        assert (ds + es)[i] == ds[i];
      } else {
        assert (ds + es)[i] == es[i - |ds|];
      }
    }
  }

  lemma DigitsTail(ds: seq<nat>)
    requires |ds| >= 2 && AllDigits(ds)
    ensures AllDigits(ds[2..]) && ds[0] < 16 && ds[1] < 16
  {
    assert forall j :: 0 <= j < |ds| - 2 ==> ds[2..][j] == ds[j + 2];
  }

  lemma {:induction false} PairsConcat(ds: seq<nat>, es: seq<nat>)
    requires |ds| % 2 == 0 && AllDigits(ds) && |es| % 2 == 0 && AllDigits(es)
    ensures AllDigits(ds + es) && Pairs(ds + es) == Pairs(ds) + Pairs(es)
    decreases |ds|
  {
    DigitsConcat(ds, es);
    if ds == [] {
      assert ds + es == es;
    } else {
      DigitsTail(ds);
      var x := ds[0] * 16 + ds[1];
      assert (ds + es)[0] == ds[0] && (ds + es)[1] == ds[1] && (ds + es)[2..] == ds[2..] + es;
      PairsConcat(ds[2..], es);
      assert Pairs(ds + es) == [x] + (Pairs(ds[2..]) + Pairs(es));
      assert Pairs(ds) == [x] + Pairs(ds[2..]);
    }
  }

  /**
   * The state of the `bytes!` loop against the digits read so far: those in
   * `paired` are already bytes in `b`; `pending` holds the high nibble of
   * the next byte, which `curr` carries shifted, when `even` is false.
   */
  ghost predicate Paired(b: seq<u8>, paired: seq<nat>, pending: seq<nat>, even: bool, curr: nat)
  {
    AllDigits(paired) && |paired| % 2 == 0 && b == Pairs(paired) &&
    (even <==> pending == []) &&
    (!even ==> |pending| == 1 && pending[0] < 16 && curr == pending[0] * 16)
  }

  /** A digit read with no high nibble pending becomes the pending one. */
  lemma FirstDigit(b: seq<u8>, paired: seq<nat>, pending: seq<nat>, curr: nat, d: nat)
    requires Paired(b, paired, pending, true, curr) && d < 16
    ensures Paired(b, paired, [d], false, d * 16) && paired + pending + [d] == paired + [d]
  {
    assert paired + pending == paired;
  }

  /** A digit read with a high nibble pending completes a byte. */
  lemma SecondDigit(b: seq<u8>, paired: seq<nat>, pending: seq<nat>, curr: nat, d: nat)
    requires Paired(b, paired, pending, false, curr) && d < 16
    ensures curr + d < 256
    ensures Paired(b + [(curr + d) as u8], paired + [pending[0], d], [], true, curr)
    ensures paired + pending + [d] == paired + [pending[0], d] + []
  {
    PairsAppend(paired, pending[0], d);
    assert pending == [pending[0]];
  }

  /** The `bytes!` loop: `even`, `curr` and `comment` are updated per character. */
  method Bytes(input: seq<char>) returns (r: Result<seq<u8>, Panic>)
    ensures r == Parse(input)
  {
    var b: seq<u8> := [];
    var even := true;
    var curr: u8 := 0;
    var comment := false;
    ghost var paired: seq<nat> := [];
    ghost var pending: seq<nat> := [];
    var i := 0;
    assert input[..0] == [] && paired + pending == [];
    while i < |input|
      invariant 0 <= i <= |input|
      invariant ScanFrom(Start, input[..i]) == Some(Scan(comment, paired + pending))
      invariant Paired(b, paired, pending, even, curr as nat)
    {
      var c := input[i];
      ScanSnoc(input, i);
      if comment {
        if c == '\n' {
          comment := false;
        }
      } else if IsWhitespace(c) || c == '-' || c == ':' || c == '_' {
      } else if c == '#' {
        comment := true;
      } else {
        var digit := HexDigit(c);
        if digit.None? {
          ScanNoneStays(input[..i + 1], input[i + 1..]);
          assert input[..i + 1] + input[i + 1..] == input;
          return Err(ExpectedHexDigit);
        }
        if even {
          FirstDigit(b, paired, pending, curr as nat, digit.value);
          curr := digit.value * 16;
          even := false;
          pending := [digit.value];
        } else {
          SecondDigit(b, paired, pending, curr as nat, digit.value);
          b := b + [curr + digit.value];
          even := true;
          paired := paired + [pending[0], digit.value];
          pending := [];
        }
      }
      i := i + 1;
    }
    assert input[..i] == input;
    if !even {
      return Err(OddDigitCount);
    }
    assert paired + pending == paired;
    return Ok(b);
  }

  /** Scanning one more character is one more `Step`. */
  lemma ScanSnoc(input: seq<char>, i: nat)
    requires i < |input|
    ensures ScanFrom(Start, input[..i + 1]) == Step(ScanFrom(Start, input[..i]), input[i])
  {
    assert input[..i + 1] == input[..i] + [input[i]];
    ScanAppend(Start, input[..i], [input[i]]);
  }

  lemma ScanNoneStays(a: seq<char>, b: seq<char>)
    requires ScanFrom(Start, a) == None
    ensures ScanFrom(Start, a + b) == None
  {
    ScanAppend(Start, a, b);
    NoneStays(b);
  }

  lemma {:induction false} NoneStays(b: seq<char>)
    ensures ScanFrom(None, b) == None
    decreases |b|
  {
    if b != [] {
      NoneStays(b[1..]);
    }
  }

  // ---------------------------------------------------------------------
  // Writing bytes as a hex literal and reading them back.
  // ---------------------------------------------------------------------

  function HexChar(d: nat): char
    requires d < 16
  {
    "0123456789abcdef"[d]
  }

  /** Each byte as two lowercase hex digits followed by a space. */
  function Format(bs: seq<u8>): string
  {
    if bs == [] then "" else [HexChar(bs[0] / 16), HexChar(bs[0] % 16), ' '] + Format(bs[1..])
  }

  function Nibbles(bs: seq<u8>): (ds: seq<nat>)
    ensures |ds| == 2 * |bs| && AllDigits(ds)
  {
    if bs == [] then [] else [bs[0] / 16, bs[0] % 16] + Nibbles(bs[1..])
  }

  lemma HexCharDigit(d: nat)
    requires d < 16
    ensures HexDigit(HexChar(d)) == Some(d)
    ensures !IsWhitespace(HexChar(d)) && HexChar(d) !in "-:_#"
  {
  }

  /** Two hex digits and a space append two digits. */
  lemma ScanPair(ds: seq<nat>, hi: nat, lo: nat)
    requires hi < 16 && lo < 16
    ensures ScanFrom(Some(Scan(false, ds)), [HexChar(hi), HexChar(lo), ' ']) == Some(Scan(false, ds + [hi, lo]))
  {
    HexCharDigit(hi);
    HexCharDigit(lo);
    var head: string := [HexChar(hi), HexChar(lo), ' '];
    var s0 := Some(Scan(false, ds));
    var s1 := Some(Scan(false, ds + [hi]));
    var s2 := Some(Scan(false, ds + [hi] + [lo]));
    assert Step(s0, head[0]) == s1;
    assert Step(s1, head[1]) == s2;
    assert Step(s2, head[2]) == s2;
    assert head[1..][1..][1..] == [];
    calc {
      ScanFrom(s0, head);
      ScanFrom(s1, head[1..]);
      ScanFrom(s2, head[1..][1..]);
      ScanFrom(s2, head[1..][1..][1..]);
      s2;
    }
    assert ds + [hi] + [lo] == ds + [hi, lo];
  }

  lemma {:induction false} ScanFormat(ds: seq<nat>, bs: seq<u8>)
    ensures ScanFrom(Some(Scan(false, ds)), Format(bs)) == Some(Scan(false, ds + Nibbles(bs)))
    decreases |bs|
  {
    if bs == [] {
      assert ds + Nibbles(bs) == ds;
    } else {
      ScanFormatHead(ds, bs);
      ScanFormat(ds + [bs[0] / 16, bs[0] % 16], bs[1..]);
      NibblesAfter(ds, bs);
    }
  }

  lemma NibblesAfter(ds: seq<nat>, bs: seq<u8>)
    requires bs != []
    ensures ds + [bs[0] / 16, bs[0] % 16] + Nibbles(bs[1..]) == ds + Nibbles(bs)
  {
    assert Nibbles(bs) == [bs[0] / 16, bs[0] % 16] + Nibbles(bs[1..]);
  }

  /** The first formatted byte appends its two digits. */
  lemma ScanFormatHead(ds: seq<nat>, bs: seq<u8>)
    requires bs != []
    ensures ScanFrom(Some(Scan(false, ds)), Format(bs)) ==
      ScanFrom(Some(Scan(false, ds + [bs[0] / 16, bs[0] % 16])), Format(bs[1..]))
  {
    var hi, lo := bs[0] / 16, bs[0] % 16;
    var head: string := [HexChar(hi), HexChar(lo), ' '];
    var s0 := Some(Scan(false, ds));
    assert Format(bs) == head + Format(bs[1..]);
    ScanAppend(s0, head, Format(bs[1..]));
    ScanPair(ds, hi, lo);
  }

  lemma {:induction false} PairsNibbles(bs: seq<u8>)
    ensures Pairs(Nibbles(bs)) == bs
    decreases |bs|
  {
    if bs != [] {
      assert Nibbles(bs)[2..] == Nibbles(bs[1..]);
      PairsNibbles(bs[1..]);
    }
  }

  /** A comment line leaves the digits read so far unchanged and ends outside the comment. */
  lemma {:induction false} ScanComment(ds: seq<nat>, note: string)
    requires '\n' !in note
    ensures ScanFrom(Some(Scan(true, ds)), note + "\n") == Some(Scan(false, ds))
    decreases |note|
  {
    if note == [] {
      assert note + "\n" == "\n";
    } else {
      assert (note + "\n")[1..] == note[1..] + "\n";
      ScanComment(ds, note[1..]);
    }
  }

  /** Formatted bytes read back as the same bytes. */
  lemma FormatRoundTrip(bs: seq<u8>)
    ensures Parse(Format(bs)) == Ok(bs)
  {
    ScanFormat([], bs);
    assert [] + Nibbles(bs) == Nibbles(bs);
    PairsNibbles(bs);
  }

  /** A '#' comment between two formatted runs is ignored. */
  lemma CommentIgnored(bs: seq<u8>, note: string, cs: seq<u8>)
    requires '\n' !in note
    ensures Parse(Format(bs) + ("#" + note + "\n") + Format(cs)) == Ok(bs + cs)
  {
    var ds := Nibbles(bs);
    var comment := "#" + note + "\n";
    var input := Format(bs) + comment + Format(cs);
    assert ScanFrom(Start, Format(bs)) == Some(Scan(false, ds)) by {
      ScanFormat([], bs);
      assert [] + ds == ds;
    }
    assert ScanFrom(Some(Scan(false, ds)), comment) == Some(Scan(false, ds)) by {
      assert comment == "#" + (note + "\n");
      ScanAppend(Some(Scan(false, ds)), "#", note + "\n");
      ScanComment(ds, note);
    }
    assert ScanFrom(Start, input) == Some(Scan(false, ds + Nibbles(cs))) by {
      ScanAppend(Start, Format(bs), comment);
      ScanAppend(Start, Format(bs) + comment, Format(cs));
      ScanFormat(ds, cs);
    }
    PairsConcat(ds, Nibbles(cs));
    PairsNibbles(bs);
    PairsNibbles(cs);
  }

  /** An odd digit count and a stray character are both refused. */
  lemma BadLiteralsRejected()
    ensures Parse("abc") == Err(OddDigitCount)
    ensures Parse("0g") == Err(ExpectedHexDigit)
  {
    assert "abc"[1..] == "bc" && "bc"[1..] == "c" && "c"[1..] == [];
    assert "0g"[1..] == "g" && "g"[1..] == [];
  }
}
