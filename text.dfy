/**
 * The pieces of Rust's string and integer text handling that the address
 * parsers and formatters rely on: `str::split` on a character set and on
 * the two-character pattern "::", `str::rfind`, `uN::from_str_radix`, and
 * the `{}`, `{:x}` and `{:02x}` integer formats.
 */
module Text {
  import opened Wrappers

  /** The kinds of `ParseIntError` an unsigned `from_str_radix` reports. */
  datatype IntError = Empty | InvalidDigit | PosOverflow

  // ---------------------------------------------------------------------
  // Splitting and joining.
  // ---------------------------------------------------------------------

  /** `s.split(|c| c in seps)`: the pieces between separators, at least one. */
  function Split(s: string, seps: set<char>): (parts: seq<string>)
    ensures |parts| >= 1
  {
    if s == [] then [[]]
    else
      var r := Split(s[1..], seps);
      if s[0] in seps then [[]] + r else [[s[0]] + r[0]] + r[1..]
  }

  /** `s.split("::")`: non-overlapping matches taken from the left. */
  function SplitDoubleColon(s: string): (parts: seq<string>)
    ensures |parts| >= 1
  {
    if s == [] then [[]]
    else if |s| >= 2 && s[0] == ':' && s[1] == ':' then [[]] + SplitDoubleColon(s[2..])
    else
      var r := SplitDoubleColon(s[1..]);
      [[s[0]] + r[0]] + r[1..]
  }

  /** The parts written one after another with `sep` between neighbours. */
  function Join(parts: seq<string>, sep: char): string
  {
    if parts == [] then []
    else if |parts| == 1 then parts[0]
    else parts[0] + [sep] + Join(parts[1..], sep)
  }

  /** Joining one more part appends the separator and the part. */
  lemma {:induction false} JoinSnoc(parts: seq<string>, p: string, sep: char)
    requires |parts| >= 1
    ensures Join(parts + [p], sep) == Join(parts, sep) + [sep] + p
  {
    if |parts| > 1 {
      assert (parts + [p])[1..] == parts[1..] + [p];
      JoinSnoc(parts[1..], p, sep);
    }
  }

  predicate Avoids(s: string, seps: set<char>)
  {
    forall i :: 0 <= i < |s| ==> s[i] !in seps
  }

  predicate AllAvoid(parts: seq<string>, seps: set<char>)
  {
    forall i :: 0 <= i < |parts| ==> Avoids(parts[i], seps)
  }

  /** `s.rfind(c)`: the position of the last occurrence. */
  function LastIndexOf(s: string, c: char): (r: Option<nat>)
    ensures r.Some? ==> r.value < |s| && s[r.value] == c && Avoids(s[r.value + 1..], {c})
    ensures r.None? ==> Avoids(s, {c})
  {
    if s == [] then None
    else if s[|s| - 1] == c then Some(|s| - 1)
    else LastIndexOf(s[..|s| - 1], c)
  }

  lemma {:induction false} SplitAvoiding(w: string, rest: string, seps: set<char>)
    requires Avoids(w, seps)
    ensures Split(w + rest, seps) == [w + Split(rest, seps)[0]] + Split(rest, seps)[1..]
  {
    if w != [] {
      assert (w + rest)[1..] == w[1..] + rest;
      SplitAvoiding(w[1..], rest, seps);
      assert [w[0]] + (w[1..] + Split(rest, seps)[0]) == w + Split(rest, seps)[0];
    } else {
      var r := Split(rest, seps);
      assert w + rest == rest;
      assert w + r[0] == r[0];
      assert [r[0]] + r[1..] == r;
    }
  }

  lemma SplitOne(w: string, seps: set<char>)
    requires Avoids(w, seps)
    ensures Split(w, seps) == [w]
  {
    SplitAvoiding(w, [], seps);
    assert w + [] == w;
  }

  /** Splitting what was joined with a separator gives the parts back. */
  lemma {:induction false} SplitJoin(parts: seq<string>, sep: char, seps: set<char>)
    requires |parts| >= 1 && sep in seps && AllAvoid(parts, seps)
    ensures Split(Join(parts, sep), seps) == parts
  {
    if |parts| == 1 {
      SplitOne(parts[0], seps);
    } else {
      var tail := Join(parts[1..], sep);
      assert Join(parts, sep) == parts[0] + ([sep] + tail);
      SplitAvoiding(parts[0], [sep] + tail, seps);
      assert ([sep] + tail)[1..] == tail;
      SplitJoin(parts[1..], sep, seps);
      assert parts[0] + [] == parts[0];
      assert parts == [parts[0]] + parts[1..];
    }
  }

  /** No two neighbouring colons, and no colon at the end. */
  predicate NoDoubleColon(s: string)
  {
    (forall i :: 0 <= i < |s| - 1 ==> !(s[i] == ':' && s[i + 1] == ':')) &&
    (s != [] ==> s[|s| - 1] != ':')
  }

  lemma {:induction false} SplitDoubleColonAfter(a: string, b: string)
    requires NoDoubleColon(a)
    ensures SplitDoubleColon(a + "::" + b) == [a] + SplitDoubleColon(b)
  {
    if a == [] {
      assert a + "::" + b == "::" + b;
      assert ("::" + b)[2..] == b;
    } else {
      var s := a + "::" + b;
      assert s[1..] == a[1..] + "::" + b;
      assert !(s[0] == ':' && s[1] == ':') by {
        if |a| == 1 {
          assert s[0] == a[0];
        } else {
          assert s[0] == a[0] && s[1] == a[1];
        }
      }
      SplitDoubleColonAfter(a[1..], b);
      assert [a[0]] + a[1..] == a;
    }
  }

  lemma {:induction false} SplitDoubleColonNone(a: string)
    requires NoDoubleColon(a)
    ensures SplitDoubleColon(a) == [a]
  {
    if a != [] {
      assert !(|a| >= 2 && a[0] == ':' && a[1] == ':');
      SplitDoubleColonNone(a[1..]);
      assert [a[0]] + a[1..] == a;
    }
  }

  // ---------------------------------------------------------------------
  // Integers as text.
  // ---------------------------------------------------------------------

  /** `char::to_digit(radix)` for radix up to 36. */
  function DigitValue(c: char, radix: nat): (d: Option<nat>)
    ensures d.Some? ==> d.value < radix
  {
    var v := if '0' <= c <= '9' then Some(c as int - '0' as int)
             else if 'a' <= c <= 'z' then Some(c as int - 'a' as int + 10)
             else if 'A' <= c <= 'Z' then Some(c as int - 'A' as int + 10)
             else None;
    if v.Some? && v.value < radix then v else None
  }

  /**
   * The digit loop of `from_str_radix`, left to right: the first character
   * that is not a digit or that takes the value past `max` decides the error.
   */
  function Digits(ds: string, radix: nat, max: nat): (r: Result<nat, IntError>)
    ensures r.Ok? ==> r.value <= max
  {
    if ds == [] then Ok(0)
    else
      match Digits(ds[..|ds| - 1], radix, max)
      case Err(e) => Err(e)
      case Ok(acc) =>
        match DigitValue(ds[|ds| - 1], radix)
        case None => Err(InvalidDigit)
        case Some(d) =>
          MulNonNegative(acc, radix);
          if acc * radix + d > max then Err(PosOverflow) else Ok(acc * radix + d)
  }

  lemma MulNonNegative(a: nat, b: nat)
    ensures a * b >= 0
  {
  }

  /**
   * `uN::from_str_radix(s, radix)` with `max == uN::MAX`: empty input is
   * `Empty`, a lone sign is `InvalidDigit`, one leading '+' is accepted.
   */
  function ParseUnsigned(s: string, radix: nat, max: nat): (r: Result<nat, IntError>)
    ensures r.Ok? ==> r.value <= max
    ensures s == [] ==> r == Err(Empty)
  {
    if s == [] then Err(Empty)
    else if |s| == 1 && (s[0] == '+' || s[0] == '-') then Err(InvalidDigit)
    else if s[0] == '+' then Digits(s[1..], radix, max)
    else Digits(s, radix, max)
  }

  function DigitChar(d: nat): char
    requires d < 16
  {
    "0123456789abcdef"[d]
  }

  /** `{}` (radix 10) and `{:x}` (radix 16): no leading zeros, lowercase. */
  function Format(n: nat, radix: nat): (s: string)
    requires radix == 10 || radix == 16
    ensures |s| >= 1
  {
    if n < radix then [DigitChar(n)] else Format(n / radix, radix) + [DigitChar(n % radix)]
  }

  /** `{:02x}` of a byte. */
  function FormatHex2(b: nat): (s: string)
    requires b < 0x100
    ensures |s| == 2
  {
    [DigitChar(b / 16), DigitChar(b % 16)]
  }

  predicate IsDigitChar(c: char)
  {
    '0' <= c <= '9' || 'a' <= c <= 'f'
  }

  predicate DigitText(s: string)
  {
    |s| >= 1 && forall i :: 0 <= i < |s| ==> IsDigitChar(s[i])
  }

  lemma DigitCharValue(d: nat, radix: nat)
    requires d < radix && (radix == 10 || radix == 16)
    ensures DigitValue(DigitChar(d), radix) == Some(d) && IsDigitChar(DigitChar(d))
  {
  }

  /** Parsing what `{}` or `{:x}` printed gives the number back. */
  lemma {:induction false} DigitsFormat(n: nat, radix: nat, max: nat)
    requires (radix == 10 || radix == 16) && n <= max
    ensures Digits(Format(n, radix), radix, max) == Ok(n)
    ensures DigitText(Format(n, radix))
  {
    var s := Format(n, radix);
    if n < radix {
      DigitCharValue(n, radix);
      assert s[..0] == [];
    } else {
      DigitsFormat(n / radix, radix, max);
      DigitCharValue(n % radix, radix);
      assert s[..|s| - 1] == Format(n / radix, radix);
    }
  }

  lemma FormatRoundTrip(n: nat, radix: nat, max: nat)
    requires (radix == 10 || radix == 16) && n <= max
    ensures ParseUnsigned(Format(n, radix), radix, max) == Ok(n)
    ensures DigitText(Format(n, radix))
  {
    DigitsFormat(n, radix, max);
  }

  lemma FormatHex2RoundTrip(b: nat, max: nat)
    requires b < 0x100 && b <= max
    ensures ParseUnsigned(FormatHex2(b), 16, max) == Ok(b)
    ensures DigitText(FormatHex2(b))
  {
    var s := FormatHex2(b);
    DigitCharValue(b / 16, 16);
    DigitCharValue(b % 16, 16);
    assert s[0] != '+' && s[0] != '-';
    assert s[..1][..0] == [];
    assert s[..1] == [DigitChar(b / 16)];
    assert Digits(s[..1], 16, max) == Ok(b / 16);
    assert s[..|s| - 1] == s[..1];
    assert (b / 16) * 16 + b % 16 == b;
  }

  lemma DigitTextAvoids(s: string, seps: set<char>)
    requires DigitText(s) && forall c :: c in seps ==> !IsDigitChar(c)
    ensures Avoids(s, seps)
  {
  }

  /** Non-empty parts without a colon, joined by ':', contain no "::" and do not end in ':'. */
  lemma {:induction false} JoinNoDoubleColon(parts: seq<string>)
    requires forall i :: 0 <= i < |parts| ==> |parts[i]| >= 1 && Avoids(parts[i], {':'})
    ensures NoDoubleColon(Join(parts, ':'))
  {
    if |parts| == 1 {
      assert parts[0][|parts[0]| - 1] !in {':'};
    } else if |parts| > 1 {
      JoinNoDoubleColon(parts[1..]);
      var t := Join(parts[1..], ':');
      var s := parts[0] + [':'] + t;
      assert Join(parts, ':') == s;
      JoinHead(parts[1..]);
      assert t[0] != ':';
      forall i | 0 <= i < |s| - 1
        ensures !(s[i] == ':' && s[i + 1] == ':')
      {
        if i < |parts[0]| - 1 {
          assert s[i] == parts[0][i];
        } else if i == |parts[0]| - 1 {
          assert s[i] == parts[0][i];
        } else if i == |parts[0]| {
          assert s[i + 1] == t[0];
        } else {
          assert s[i] == t[i - |parts[0]| - 1];
        }
      }
    }
  }

  /** A join of non-empty parts starts with the first part's first character. */
  lemma JoinHead(parts: seq<string>)
    requires |parts| >= 1 && |parts[0]| >= 1
    ensures |Join(parts, ':')| >= 1 && Join(parts, ':')[0] == parts[0][0]
  {
    if |parts| > 1 {
      assert Join(parts, ':') == parts[0] + [':'] + Join(parts[1..], ':');
    }
  }

  /** Words of digit text joined by ':' contain no "::" and do not end in ':'. */
  lemma JoinDigitTextNoDoubleColon(parts: seq<string>)
    requires forall i :: 0 <= i < |parts| ==> DigitText(parts[i])
    ensures NoDoubleColon(Join(parts, ':'))
  {
    forall i | 0 <= i < |parts|
      ensures |parts[i]| >= 1 && Avoids(parts[i], {':'})
    {
      DigitTextAvoids(parts[i], {':'});
    }
    JoinNoDoubleColon(parts);
  }

  /** A join avoids what its parts and its separator avoid. */
  lemma {:induction false} JoinAvoids(parts: seq<string>, sep: char, seps: set<char>)
    requires AllAvoid(parts, seps) && sep !in seps
    ensures Avoids(Join(parts, sep), seps)
  {
    if |parts| > 1 {
      JoinAvoids(parts[1..], sep, seps);
      var t := Join(parts[1..], sep);
      var s := parts[0] + [sep] + t;
      assert Join(parts, sep) == s;
      forall i | 0 <= i < |s|
        ensures s[i] !in seps
      {
        if i < |parts[0]| {
          assert s[i] == parts[0][i];
        } else if i > |parts[0]| {
          assert s[i] == t[i - |parts[0]| - 1];
        }
      }
    }
  }

  lemma JoinStartsWithDigit(parts: seq<string>)
    requires |parts| >= 1 && forall i :: 0 <= i < |parts| ==> DigitText(parts[i])
    ensures |Join(parts, ':')| >= 1 && IsDigitChar(Join(parts, ':')[0])
  {
    if |parts| > 1 {
      assert Join(parts, ':') == parts[0] + [':'] + Join(parts[1..], ':');
    }
  }
}
