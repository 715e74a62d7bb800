/**
 * The running 16-bit checksum accumulator `U16OnesComplement`: bytes are
 * written to it in any number of pieces, summed as big-endian 16-bit words
 * with wrapping addition, and an odd byte left over at the end of a write is
 * held back and paired with the first byte of the next write.
 */
module Checksum {
  import opened Bits
  import opened Wrappers

  /** What the accumulator holds: the wrapping word sum and a pending odd byte. */
  datatype State = State(sum: u16, extra: Option<u8>)

  /** One byte arrives: it is held back, or it completes a word with the held byte. */
  function Step(s: State, b: u8): State
  {
    match s.extra
    case None => State(s.sum, Some(b))
    case Some(first) => State((s.sum + first as int * 0x100 + b as int) % 0x1_0000, None)
  }

  /** The state after a stream of bytes arrives, one at a time. */
  function Feed(s: State, bytes: seq<u8>): State
    decreases |bytes|
  {
    if bytes == [] then s else Feed(Step(s, bytes[0]), bytes[1..])
  }

  /** The sum of the big-endian 16-bit words of a byte string, a final odd byte left out. */
  function WordSum(bytes: seq<u8>): nat
    decreases |bytes|
  {
    if |bytes| < 2 then 0 else bytes[0] as int * 0x100 + bytes[1] as int + WordSum(bytes[2..])
  }

  /** Feeding two pieces one after the other is feeding their concatenation. */
  lemma {:induction false} FeedAppend(s: State, a: seq<u8>, b: seq<u8>)
    ensures Feed(s, a + b) == Feed(Feed(s, a), b)
    decreases |a|
  {
    if a != [] {
      assert (a + b)[1..] == a[1..] + b;
      FeedAppend(Step(s, a[0]), a[1..], b);
    } else {
      assert a + b == b;
    }
  }

  /**
   * From a fresh accumulator, any stream leaves the wrapping sum of its
   * big-endian words, and holds its last byte exactly when its length is odd.
   */
  lemma {:induction false} FeedFromNew(sum: u16, bytes: seq<u8>)
    ensures Feed(State(sum, None), bytes) ==
      State((sum + WordSum(bytes)) % 0x1_0000, if |bytes| % 2 == 1 then Some(bytes[|bytes| - 1]) else None)
    decreases |bytes|
  {
    if |bytes| >= 2 {
      var w := bytes[0] as int * 0x100 + bytes[1] as int;
      assert Feed(State(sum, None), bytes) == Feed(State((sum + w) % 0x1_0000, None), bytes[2..]) by {
        assert bytes[1..][1..] == bytes[2..];
        assert bytes[1..][0] == bytes[1];
      }
      FeedFromNew((sum + w) % 0x1_0000, bytes[2..]);
      assert WordSum(bytes) == w + WordSum(bytes[2..]);
      ModAddMod(sum + w, WordSum(bytes[2..]), 0x1_0000);
      assert |bytes[2..]| % 2 == |bytes| % 2;
      if |bytes| % 2 == 1 {
        assert bytes[2..][|bytes[2..]| - 1] == bytes[|bytes| - 1];
      }
    } else if |bytes| == 1 {
      assert bytes[1..] == [];
    }
  }

  lemma ModAddMod(a: nat, b: nat, m: nat)
    requires m > 0
    ensures (a % m + b) % m == (a + b) % m
  {
    DivModUnique(a + b, m, a / m + (a % m + b) / m, (a % m + b) % m);
  }

  /** Word sums add up across a split at an even offset. */
  lemma {:induction false} WordSumAppend(a: seq<u8>, b: seq<u8>)
    requires |a| % 2 == 0
    ensures WordSum(a + b) == WordSum(a) + WordSum(b)
    decreases |a|
  {
    if |a| >= 2 {
      assert (a + b)[2..] == a[2..] + b;
      assert (a + b)[0] == a[0] && (a + b)[1] == a[1];
      WordSumAppend(a[2..], b);
    } else {
      assert a + b == b;
    }
  }

  /** A big-endian 16-bit field is one word with its own value. */
  lemma WordSumBe16(c: u16)
    ensures WordSum(BeBytes(c, 2)) == c
  {
    var s := BeBytes(c, 2);
    assert BeBytes(c / 256, 1) == [(c / 256) % 256] by {
      assert BeBytes(c / 256 / 256, 0) == [];
    }
    assert s == [(c / 256) % 256, c % 256];
    assert s[2..] == [];
  }

  /** The checksum a new accumulator reports after the given bytes are written to it. */
  function OfBytes(bytes: seq<u8>): (c: u16)
    ensures c + Feed(State(0, None), bytes).sum == 0xFFFF
  {
    Pow2Values();
    Not(Feed(State(0, None), bytes).sum, 16)
  }

  /**
   * A checksum field at an even offset: computing the checksum with the field
   * zeroed and writing it into the field makes the words sum to 0xFFFF, so the
   * completed bytes have checksum zero.
   */
  lemma ChecksumFieldCompletes(pre: seq<u8>, post: seq<u8>)
    requires |pre| % 2 == 0
    ensures Feed(State(0, None), pre + BeBytes(OfBytes(pre + BeBytes(0, 2) + post), 2) + post).sum == 0xFFFF
    ensures OfBytes(pre + BeBytes(OfBytes(pre + BeBytes(0, 2) + post), 2) + post) == 0
  {
    var zero := pre + BeBytes(0, 2) + post;
    var c := OfBytes(zero);
    var full := pre + BeBytes(c, 2) + post;
    var w := WordSum(pre) + WordSum(post);
    FieldSum(pre, post, 0);
    FieldSum(pre, post, c);
    FeedFromNew(0, zero);
    FeedFromNew(0, full);
    Completed(w, c);
  }

  /** The words of a byte string with a 16-bit field at an even offset. */
  lemma FieldSum(pre: seq<u8>, post: seq<u8>, x: u16)
    requires |pre| % 2 == 0
    ensures WordSum(pre + BeBytes(x, 2) + post) == WordSum(pre) + x + WordSum(post)
  {
    WordSumAppend(pre, BeBytes(x, 2));
    WordSumAppend(pre + BeBytes(x, 2), post);
    WordSumBe16(x);
  }

  /** Adding the complement of the folded sum makes the folded sum 0xFFFF. */
  lemma Completed(w: nat, c: nat)
    requires c + w % 0x1_0000 == 0xFFFF
    ensures (w + c) % 0x1_0000 == 0xFFFF
  {
    DivModUnique(w + c, 0x1_0000, w / 0x1_0000, 0xFFFF);
  }

  class U16OnesComplement {
    var sum: u16
    var extra: Option<u8>

    function Current(): State
      reads this
    {
      State(sum, extra)
    }

    /** `U16OnesComplement::new`. */
    constructor ()
      ensures sum == 0 && extra == None
    {
      sum := 0;
      extra := None;
    }

    /** `add`: wrapping 16-bit addition of one word. */
    method Add(word: u16)
      modifies this
      ensures sum == (old(sum) + word) % 0x1_0000 && extra == old(extra)
    {
      sum := (sum + word) % 0x1_0000;
    }

    /** `checksum`: the one's complement (bitwise NOT) of the sum. */
    function Checksum(): (c: u16)
      reads this
      ensures c + sum == 0xFFFF
    {
      Pow2Values();
      Not(sum, 16)
    }

    /**
     * `Write::write`: the held byte, if any, is paired with the first new
     * byte; then whole words are added; a last odd byte is held. The result
     * is always the number of bytes given.
     */
    method Write(buf: seq<u8>) returns (n: nat)
      modifies this
      ensures n == |buf|
      ensures Current() == Feed(old(Current()), buf)
    {
      n := |buf|;
      var b := buf;
      if b != [] && extra.Some? {
        var first := extra.value;
        extra := None;
        Add(first as int * 0x100 + b[0] as int);
        b := b[1..];
      }
      while |b| > 1
        invariant b != [] ==> extra == None
        invariant Feed(old(Current()), buf) == Feed(Current(), b)
        decreases |b|
      {
        assert b[1..][1..] == b[2..] && b[1..][0] == b[1];
        Add(b[0] as int * 0x100 + b[1] as int);
        b := b[2..];
      }
      if b != [] {
        assert b[1..] == [];
        extra := Some(b[0]);
      }
    }
  }

  /** Writing in two pieces leaves the same state as writing their concatenation at once. */
  method WriteSplitExample(a: seq<u8>, b: seq<u8>) returns (split: State, whole: State)
    ensures split == whole
  {
    var acc1 := new U16OnesComplement();
    var _ := acc1.Write(a);
    var _ := acc1.Write(b);
    var acc2 := new U16OnesComplement();
    var _ := acc2.Write(a + b);
    FeedAppend(State(0, None), a, b);
    split, whole := acc1.Current(), acc2.Current();
  }
}
